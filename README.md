# Social-media steganography: a Dafny model of its core

This project models the core of a Java steganography library that hides a
payload in the pixels of an image, in the palette of a GIF, or in the data
bytes of an MP3, and that orders Reddit posts by date. Five source classes
are modelled:

- **PixelBit** (`pixel_bit.dfy`, module `PixelBit`). Each visited pixel
  carries one payload bit: the parity of the low bits of its four channel
  bytes. To change a bit, one channel is stepped by one, up or down, without
  leaving 0..255. `encode` writes a payload most significant bit first.
  `decode(n)` reads `n` bytes back, and `decodeEverything` reads whole bytes
  while eight units remain. `flipEveryPixel` flips every remaining pixel.
  The encoder is a class over the overlay, which it updates in place.
- **ImageSteg** (`image_steg.dfy`, module `ImageSteg`). This is the front
  end. It can frame the payload with an eight-byte header: the signature
  1349075561, then the payload length, both big-endian. It decodes that
  frame, answers whether data carries the signature, and computes the
  capacity of an image. It also checks the carrier's format and picks the
  encoder for an image type.
- **GIFTableDecoder** (`gif_table.dfy`, module `GifTable`). It reads the
  global colour table of a GIF89a file, including Java's sign extension of
  bytes of 0x80 and above. It then builds the colour couples: the entries
  within 8 on each signed channel that carry the opposite parity bit.
- **MP3SequenceOverlay** (`overlays.dfy`, module `Overlays`). A cursor over
  a byte buffer visits a fixed list of positions. `next` advances the
  cursor, `setByte` writes under it, and `available` counts what is left.
  The same generic class is the pixel overlay of the image codec.
- **MyDate** (`my_date.dfy`, module `Dates`). The month, day, year and time
  getters read the blank-separated components of a date's text, and
  `compareTo` orders two dates by year, month, day, hour, minute and second.

`common.dfy` (module `Common`) holds the shared `Option`, `Result` and
`Outcome` types. It also holds one error kind per Java exception the core
throws, and the 32-bit arithmetic helpers.

Modelling choices:

- A Java `int` is an `int` in the range of `Int32`. The 32-bit
  wrap-around is written out where it matters (`Wrap32`, `ShiftLeft8`).
- A Java `byte` in a payload or a GIF file is its unsigned value 0..255
  (`Byte`). Where Java reads it as a signed value, `Signed8` says so.
- A pixel is a `bv32`, because the codec works on its bits.
- An exception becomes a `Failure` or `Fail` carrying the matching error.
  The state left behind by the exception is part of the contract. For
  example, `next` past the end has still advanced the cursor.
- The random channel and direction of each pixel change become a `Choice`
  input, one per visited unit.
- The overlay's visit order becomes a constructor argument, a list of
  distinct in-range positions.
- The source always encodes, decodes and detects from a fresh overlay,
  with the cursor at -1. The contracts of the encoder's and ImageSteg's
  methods hold for any starting cursor, reading or writing from the unit
  after it.

## Model

| member | source | states |
|---|---|---|
| Common.Wrap32 | src/main/java/steganography/image/PixelBit.java:46 | the 32-bit value of an integer is congruent to it modulo 2^32 and equals it when it is in range |
| Overlays.SequenceOverlay.constructor | src/main/java/steganography/audio/overlays/MP3SequenceOverlay.java:35-56 | a fresh overlay has its cursor at -1, visits exactly the given positions (the seed has no effect), and has all of them available |
| Overlays.SequenceOverlay.Available | src/main/java/steganography/audio/overlays/MP3SequenceOverlay.java:67-69 | with the cursor at -1 or within the order, the count is the number of positions after the cursor, the ones not yet visited |
| Overlays.SequenceOverlay.Next | src/main/java/steganography/audio/overlays/MP3SequenceOverlay.java:59-69 | the cursor always advances by one and available drops by one; a unit is returned exactly when the cursor is still within the order, and it is the unit at the cursor's position; otherwise it fails |
| Overlays.SequenceOverlay.SetUnit | src/main/java/steganography/audio/overlays/MP3SequenceOverlay.java:72-74 | writes the unit at the cursor's position and leaves every other unit unchanged; without a unit under the cursor it writes nothing and fails |
| Overlays.SequenceOverlay.GetBytes | src/main/java/steganography/audio/overlays/MP3SequenceOverlay.java:77-79 | returns the very buffer that SetUnit writes, not a copy |
| PixelBit.ShiftOf | src/main/java/steganography/image/PixelBit.java:167 | the bit offset of a channel is at most 24, so the channel byte fits in the int |
| PixelBit.PutByteAt | src/main/java/steganography/image/PixelBit.java:187 | putting a byte back at a channel sets that channel and leaves the other three unchanged |
| PixelBit.PixelIsOneIsOddSum | src/main/java/steganography/image/PixelBit.java:138-154 | a pixel represents 1 exactly when the sum of its four channel bytes is odd |
| PixelBit.ParityOfLowBits | src/main/java/steganography/image/PixelBit.java:147-154 | a pixel represents 1 exactly when the XOR of bits 0, 8, 16 and 24 is one |
| PixelBit.StepChannel | src/main/java/steganography/image/PixelBit.java:173-184 | the new channel stays in 0..255 and differs by exactly one; 0xFF always goes down, 0 always goes up, anything else goes the chosen way |
| PixelBit.StepFlips | src/main/java/steganography/image/PixelBit.java:184-187 | stepping one channel by one flips the pixel's bit and changes no other channel |
| PixelBit.ChangePixelValue | src/main/java/steganography/image/PixelBit.java:163-187 | the pixel's bit is always flipped; the chosen channel is stepped without overflow and the other channels are unchanged |
| PixelBit.ChannelCount | src/main/java/steganography/image/PixelBit.java:36-41 | a pixel size is accepted exactly when it is 24 or 32, giving 3 or 4 channels with 8 * channels == pixel size |
| PixelBit.MsbBitsAt | src/main/java/steganography/image/PixelBit.java:56-58 | the t-th bit written for a value, most significant first, is bit n - 1 - t of it |
| PixelBit.PackMsbBits | src/main/java/steganography/image/PixelBit.java:116-121 | packing the most-significant-first bits of a value gives the value back |
| PixelBit.Pack | src/main/java/steganography/image/PixelBit.java:116-121 | packing n bits, most significant first, gives a value below 2^n |
| PixelBit.MsbBitsOfPack | src/main/java/steganography/image/PixelBit.java:116-121 | unpacking a packed bit sequence gives the sequence back |
| PixelBit.PackEight | src/main/java/steganography/image/PixelBit.java:116-123 | eight packed bits form a byte whose bit 7 - t is bit t of the input |
| PixelBit.BitsToByte | src/main/java/steganography/image/PixelBit.java:112-124 | succeeds exactly for eight bits (otherwise an index error), and then bit 7 - t of the byte is bit t of the input |
| PixelBit.ByteFromOwnBits | src/main/java/steganography/image/PixelBit.java:55-58 | a byte's own bits, most significant first, pack back to that byte |
| PixelBit.BitsOfAt | src/main/java/steganography/image/PixelBit.java:55-58 | bit number 8i + 7 - b of a payload's bit sequence is bit b of byte i |
| PixelBit.BitsOfAppend | src/main/java/steganography/image/PixelBit.java:55-58 | the bits of two payloads one after the other are the bits of their concatenation |
| PixelBit.Target | src/main/java/steganography/image/PixelBit.java:60-65 | the written pixel represents the wanted bit, and it is unchanged exactly when it already did |
| PixelBit.WriteBits | src/main/java/steganography/image/PixelBit.java:45-68 | encode on values: the units keep their number (what each unit becomes is stated by the lemmas below) |
| PixelBit.WriteBitsStep | src/main/java/steganography/image/PixelBit.java:55-66 | writing one more bit updates exactly the next visited unit |
| PixelBit.WriteBitsFrame | src/main/java/steganography/image/PixelBit.java:55-66 | a unit that is not visited is left unchanged by encode |
| PixelBit.WriteBitsAt | src/main/java/steganography/image/PixelBit.java:55-66 | the k-th visited unit after encode is the target pixel for the k-th bit |
| PixelBit.WriteBitsRepresents | src/main/java/steganography/image/PixelBit.java:55-66 | after encode, the k-th visited pixel represents the k-th payload bit |
| PixelBit.WriteBitsPrefix | src/main/java/steganography/image/PixelBit.java:55-66 | writing a prefix of the bits depends only on that prefix |
| PixelBit.WriteBitsAppend | src/main/java/steganography/image/PixelBit.java:55-66 | writing a + b is writing a, then writing b from where a stopped |
| PixelBit.Read | src/main/java/steganography/image/PixelBit.java:71-87 | decode(n) succeeds exactly when 8n units remain (or n <= 0) and then returns n bytes (none for a negative n); otherwise no such element |
| PixelBit.Decoded | src/main/java/steganography/image/PixelBit.java:71-105 | reading n bytes from a position gives exactly n bytes, each packed from the next eight units |
| PixelBit.RepresentsSplit | src/main/java/steganography/image/PixelBit.java:71-87 | units representing a + b represent a, then b right after it |
| PixelBit.ByteRepresented | src/main/java/steganography/image/PixelBit.java:76-83 | eight units representing a byte's bits decode to that byte |
| PixelBit.DecodedRepresented | src/main/java/steganography/image/PixelBit.java:71-87 | units representing a payload's bits decode to that payload |
| PixelBit.EncodeThenRead | src/main/java/steganography/image/PixelBit.java:45-87 | round trip: decoding the units that encode wrote, in the same order, returns the payload |
| PixelBit.FlipAllStep | src/main/java/steganography/image/PixelBit.java:132-136 | flipping one more pixel updates exactly the next visited unit |
| PixelBit.FlipAll | src/main/java/steganography/image/PixelBit.java:126-136 | flipEveryPixel on values: the units keep their number (which units change, and how, is FlipAllFlips) |
| PixelBit.FlipAllFlips | src/main/java/steganography/image/PixelBit.java:132-136 | a visited pixel is the changed value of its old self, and an unvisited one is unchanged |
| PixelBit.FlipAllParity | src/main/java/steganography/image/PixelBit.java:126-136 | every visited pixel's bit is inverted by flipEveryPixel |
| PixelBit.CapacityCheckOverflows | src/main/java/steganography/image/PixelBit.java:46 | the capacity check as written lets a payload of 2^28 bytes through an overlay with nothing available |
| PixelBit.CapacityCheckAgrees | src/main/java/steganography/image/PixelBit.java:46 | for payloads under 2^28 bytes the check as written is the intended one |
| PixelBit.PixelBitEncoder.constructor | src/main/java/steganography/image/PixelBit.java:32-42 | an accepted pixel size gives pixelSize / 8 channels over the given overlay |
| PixelBit.PixelBitEncoder.EncodeBit | src/main/java/steganography/image/PixelBit.java:58-65 | advances the cursor by one and sets the unit under it to the target pixel for the bit |
| PixelBit.PixelBitEncoder.EncodeByte | src/main/java/steganography/image/PixelBit.java:56-66 | advances by eight and extends the written state by the byte's eight bits |
| PixelBit.PixelBitEncoder.Encode | src/main/java/steganography/image/PixelBit.java:45-68 | fails for capacity exactly when 8 times the length exceeds the units available, changing nothing; otherwise it advances by 8 bits per byte and the units are the payload's bits written in order |
| PixelBit.PixelBitEncoder.ReadByte | src/main/java/steganography/image/PixelBit.java:76-83 | with eight units left it returns the byte they represent and advances by eight; otherwise it fails with the cursor at the end |
| PixelBit.PixelBitEncoder.Decode | src/main/java/steganography/image/PixelBit.java:70-87 | returns what Read gives for the units from the cursor on, writes nothing, and advances by 8 units per byte read |
| PixelBit.PixelBitEncoder.DecodeEverything | src/main/java/steganography/image/PixelBit.java:89-105 | returns the available / 8 bytes the remaining units represent and advances by 8 units per byte |
| PixelBit.PixelBitEncoder.FlipNext | src/main/java/steganography/image/PixelBit.java:134 | advances by one and replaces the unit under the cursor by its changed value |
| PixelBit.PixelBitEncoder.FlipEveryPixel | src/main/java/steganography/image/PixelBit.java:132-136 | every remaining unit is flipped, in order, and the cursor ends on the last position |
| PixelBit.Create | src/main/java/steganography/image/PixelBit.java:32-42 | an encoder is built exactly for pixel sizes 24 and 32; any other size is an illegal argument |
| GifTable.ShiftLeft8 | src/main/java/steganography/image/encoders/GIFTableDecoder.java:101 | a shift by 8 on an int is multiplication by 256 modulo 2^32, with a zero low byte |
| GifTable.ShiftIn | src/main/java/steganography/image/encoders/GIFTableDecoder.java:101-107 | after shifting and ORing in a file byte, the low byte is that byte |
| GifTable.Entry | src/main/java/steganography/image/encoders/GIFTableDecoder.java:99-108 | the low byte of an entry is always its blue byte |
| GifTable.EntryOfLowGreenBlue | src/main/java/steganography/image/encoders/GIFTableDecoder.java:99-108 | with green and blue below 0x80 an entry is the opaque colour 0xFF000000 + red·2^16 + green·2^8 + blue (red's sign extension is shifted out) |
| GifTable.EntryBlueHigh | src/main/java/steganography/image/encoders/GIFTableDecoder.java:107 | a blue byte of 0x80 or more sign-extends over alpha, red and green |
| GifTable.EntryGreenHigh | src/main/java/steganography/image/encoders/GIFTableDecoder.java:104 | a green byte of 0x80 or more, with blue below 0x80, sign-extends over alpha and red |
| GifTable.Signed8 | src/main/java/steganography/image/encoders/GIFTableDecoder.java:150-163 | a byte read as a signed Java byte lies in -128..127 and is congruent to it modulo 256 |
| GifTable.GetRed | src/main/java/steganography/image/encoders/GIFTableDecoder.java:150-153 | the red channel is a signed value in -128..127, congruent modulo 256 to bits 16..23 of the colour |
| GifTable.GetGreen | src/main/java/steganography/image/encoders/GIFTableDecoder.java:155-158 | the green channel is a signed value in -128..127, congruent modulo 256 to bits 8..15 of the colour |
| GifTable.GetBlue | src/main/java/steganography/image/encoders/GIFTableDecoder.java:160-163 | the blue channel is a signed value in -128..127, congruent modulo 256 to the colour |
| GifTable.ChannelsOfPlainEntry | src/main/java/steganography/image/encoders/GIFTableDecoder.java:150-163 | channels below 0x80 read back as stored by getRed, getGreen and getBlue |
| GifTable.ChannelsOfBlueHighEntry | src/main/java/steganography/image/encoders/GIFTableDecoder.java:150-163 | with a blue byte of 0x80 or more, red and green read back as -1 and blue as its signed value |
| GifTable.TableSize | src/main/java/steganography/image/encoders/GIFTableDecoder.java:97 | a table has between 2 and 256 entries |
| GifTable.TableSizeIsPower | src/main/java/steganography/image/encoders/GIFTableDecoder.java:89-97 | a table has 2^(N+1) entries for size field N |
| GifTable.SizeField | src/main/java/steganography/image/encoders/GIFTableDecoder.java:89 | the size field is the low three bits, below 8 |
| GifTable.Entries | src/main/java/steganography/image/encoders/GIFTableDecoder.java:95-112 | reading n entries gives n colours |
| GifTable.EntriesAt | src/main/java/steganography/image/encoders/GIFTableDecoder.java:96-109 | entry j is built from the bytes at 13 + 3j, 14 + 3j and 15 + 3j, in red, green, blue order |
| GifTable.GlobalTable | src/main/java/steganography/image/encoders/GIFTableDecoder.java:72-112 | a failure is an illegal argument or an index error; a success means a GIF89a file, with a table exactly when the flag bit is set, of 2^(N+1) entries |
| GifTable.RejectsNonGif | src/main/java/steganography/image/encoders/GIFTableDecoder.java:73-81 | data of length 6 or less, or not starting with "GIF89a", is exactly what is refused as an illegal argument; the only other failure is reading past the end |
| GifTable.TableLayout | src/main/java/steganography/image/encoders/GIFTableDecoder.java:89-111 | a table that is read has 2^(N+1) entries that lie within the file, and entry j comes from the three bytes at offset 13 + 3j |
| GifTable.TableReadWhenPresent | src/main/java/steganography/image/encoders/GIFTableDecoder.java:73-92 | a table is read exactly for a GIF89a file whose flag bit is set and which is long enough; no table is read exactly when the flag bit is clear |
| GifTable.CoupleSymmetric | src/main/java/steganography/image/encoders/GIFTableDecoder.java:126-130 | the couple test is symmetric in its two colours |
| GifTable.CloseSymmetric | src/main/java/steganography/image/encoders/GIFTableDecoder.java:126-128 | the three channel distance tests are symmetric |
| GifTable.CoupleIrreflexive | src/main/java/steganography/image/encoders/GIFTableDecoder.java:124-129 | no colour is its own partner, so duplicate colours never pair up |
| GifTable.PartnersIn | src/main/java/steganography/image/encoders/GIFTableDecoder.java:123-131 | a colour's list is no longer than the table and holds only table entries that form a couple with it |
| GifTable.PartnersInMembers | src/main/java/steganography/image/encoders/GIFTableDecoder.java:121-137 | a colour's list holds exactly the table entries within 8 on every signed channel that have the opposite bit |
| GifTable.PartnersInStep | src/main/java/steganography/image/encoders/GIFTableDecoder.java:123-131 | each pass of the inner loop appends entry j exactly when it is a partner |
| GifTable.PartnersInAppend | src/main/java/steganography/image/encoders/GIFTableDecoder.java:123-131 | partners appear in table order |
| GifTable.CouplesOf | src/main/java/steganography/image/encoders/GIFTableDecoder.java:120-141 | after n outer passes every key is one of the first n colours and has a non-empty list |
| GifTable.Couples | src/main/java/steganography/image/encoders/GIFTableDecoder.java:118-143 | every key of the couples map is a table colour with a non-empty list |
| GifTable.CouplesOfSpec | src/main/java/steganography/image/encoders/GIFTableDecoder.java:120-141 | after n outer passes, the keys are the first n colours with a partner, each mapped to its partner list |
| GifTable.CouplesSpec | src/main/java/steganography/image/encoders/GIFTableDecoder.java:118-143 | the keys are exactly the table colours with at least one partner, and each maps to the non-empty list of exactly its partners |
| GifTable.CouplesSymmetric | src/main/java/steganography/image/encoders/GIFTableDecoder.java:126-140 | if Y is a partner of X then Y is a key with X among its partners, and Y differs from X |
| GifTable.GifTableDecoder.constructor | src/main/java/steganography/image/encoders/GIFTableDecoder.java:36 | a fresh decoder has no colour table |
| GifTable.GifTableDecoder.SaveColorTable | src/main/java/steganography/image/encoders/GIFTableDecoder.java:72-93 | fails exactly as the file model does, keeping the field; with the flag clear it returns the field unchanged; otherwise it stores and returns a fresh table holding the entries read |
| GifTable.GifTableDecoder.GlobalColorTable | src/main/java/steganography/image/encoders/GIFTableDecoder.java:95-112 | fails with an index error exactly when the file is too short for 2^(N+1) entries; otherwise a fresh array holds the entries read |
| GifTable.GifTableDecoder.GetColorCouples | src/main/java/steganography/image/encoders/GIFTableDecoder.java:118-143 | a null table is a null pointer error; otherwise the map built by the nested loops is the couples of the table |
| ImageSteg.IntToBytes | src/main/java/steganography/image/ImageSteg.java:412-419 | an int becomes four bytes |
| ImageSteg.BytesToInt | src/main/java/steganography/image/ImageSteg.java:420-426 | the int is negative exactly when the first byte has bit 7 set, and its low byte is the fourth byte |
| ImageSteg.IntBytesRoundTrip | src/main/java/steganography/image/ImageSteg.java:412-426 | bytesToInt(int2bytes(x)) == x for every 32-bit x |
| ImageSteg.BytesIntRoundTrip | src/main/java/steganography/image/ImageSteg.java:412-426 | int2bytes(bytesToInt(b)) == b for every four bytes, so the order is big-endian both ways |
| ImageSteg.Header | src/main/java/steganography/image/ImageSteg.java:134-136 | the default header is eight bytes |
| ImageSteg.FramedRead | src/main/java/steganography/image/ImageSteg.java:169-189 | decode fails only with no such element or an unknown format; a payload it returns lies, with the header, within the units |
| ImageSteg.Detect | src/main/java/steganography/image/ImageSteg.java:263-266 | detection answers exactly when 32 units remain for the signature; otherwise no such element |
| ImageSteg.FrameRepresented | src/main/java/steganography/image/ImageSteg.java:181-188 | after a header and a payload are written, the two header halves and the payload read back at offsets 0, 32 and 64 |
| ImageSteg.PartsDecoded | src/main/java/steganography/image/ImageSteg.java:181-188 | units representing x, y and z one after the other decode to each of them at its own offset |
| ImageSteg.BitsOfThree | src/main/java/steganography/image/ImageSteg.java:134-138 | the bits of three parts in a row are the bits of their concatenation |
| ImageSteg.RepresentsThree | src/main/java/steganography/image/ImageSteg.java:181-188 | units representing a + b + c represent each part at its own offset |
| ImageSteg.FramedRoundTrip | src/main/java/steganography/image/ImageSteg.java:134-188 | round trip through one visit order: decode after encode with the default header returns the payload, and detection through the encoder's own overlay answers true |
| ImageSteg.UnframedRefused | src/main/java/steganography/image/ImageSteg.java:181-183 | units whose first four bytes are not the signature make decode fail with an unknown format and detection answer false |
| ImageSteg.ImageCapacity | src/main/java/steganography/image/ImageSteg.java:275-283 | the capacity is the largest payload length whose frame fits: 8 times (capacity plus the header) is at most the units available, and one byte more is not |
| ImageSteg.CapacityIsExact | src/main/java/steganography/image/ImageSteg.java:280-282 | a payload length is at most the capacity (available / 8, minus 8 with the header) exactly when its frame fits into the available units |
| ImageSteg.FormatSupported | src/main/java/steganography/image/ImageSteg.java:428-430 | the lookup is case-sensitive: a supported name is "bmp", "gif" or "png" up to letter case |
| ImageSteg.CheckCarrier | src/main/java/steganography/image/ImageSteg.java:359-398 | a refused carrier fails with no image or an unsupported type; an accepted one was recognised in a supported format |
| ImageSteg.CarrierAccepted | src/main/java/steganography/image/ImageSteg.java:367-393 | a carrier is accepted exactly when a reader recognised it, its format is one of the six names, and it is not a BMP with alpha; no reader is the no-image error |
| ImageSteg.EncoderChoice | src/main/java/steganography/image/ImageSteg.java:301-343 | the five direct types get PixelBit over the overlay that useTransparent selects; an indexed image gets the palette codec with its couples, or the table reader's error, or a null pointer error when the file has no global table; the pre-multiplied and all other types, and an indexed image whose GIF bytes could not be written, are unsupported |
| ImageSteg.GetOverlay | src/main/java/steganography/image/ImageSteg.java:353-357 | the overlay visits every pixel when useTransparent is set, and otherwise exactly the pixels whose alpha is not zero |
| ImageSteg.GetEncoder | src/main/java/steganography/image/ImageSteg.java:296-344 | a failure is an unsupported type, a null pointer or the table reader's error; PixelBit is chosen only for the five direct types, the palette codec only for the indexed type |
| ImageSteg.EligibleFrom | src/main/java/steganography/image/ImageSteg.java:353-357 | the positions an overlay visits from i on, in increasing order: exactly the pixels from i on that it visits |
| ImageSteg.Eligible | src/main/java/steganography/image/ImageSteg.java:353-357 | the positions an overlay visits before shuffling are distinct, in range, and exactly the pixels of its kind |
| ImageSteg.EligibleFromSame | src/main/java/steganography/image/ImageSteg.java:353-357 | overlays that visit the same pixels list the same positions, whatever their kind or the pixels' other bits |
| ImageSteg.DetectionSkipsEncodeOrder | src/main/java/steganography/image/ImageSteg.java:263-266 | as written, with useTransparent false, a fully transparent pixel is visited by detection and not by encode, so the two visit orders differ |
| ImageSteg.DetectionAgrees | src/main/java/steganography/image/ImageSteg.java:255-267 | detection reads in the encoder's order when transparent pixels are used or the image has none |
| ImageSteg.DetectAsWritten | src/main/java/steganography/image/ImageSteg.java:258-266 | detection as written is an illegal argument exactly for pixel sizes other than 24 and 32, and otherwise the signature test |
| ImageSteg.DetectionRefusesIndexed | src/main/java/steganography/image/ImageSteg.java:263-264 | as written, an indexed carrier of at most 8 bits per pixel whose GIF has a global table gets the palette codec from getEncoder but an illegal argument from detection |
| ImageSteg.DetectByType | src/main/java/steganography/image/ImageSteg.java:296-344 | detection dispatched like getEncoder: a direct type is the PixelBit signature test, a refused carrier fails with getEncoder's error |
| ImageSteg.DetectByTypeAnswers | src/main/java/steganography/image/ImageSteg.java:296-344 | dispatched detection answers for every carrier encode accepts (32 units left, or a palette read that succeeds), and answers true for a written signature through either codec |
| ImageSteg.AlphaCanVanish | src/main/java/steganography/image/PixelBit.java:163-187 | stepping alpha down from 1 makes a pixel fully transparent and drops it from the overlay without transparent pixels; stepping alpha up from 0 makes one visible |
| ImageSteg.SettingsRoundTrip | src/main/java/steganography/image/ImageSteg.java:119-189 | encode then decode with the overlay the settings select: the order rebuilt from the written image is the encoder's when transparent pixels are used or no written pixel changed transparency, and then decode returns the payload and detection through that overlay answers true; detection as written agrees when transparent pixels are used or the image has none |
| ImageSteg.PaletteCouples | src/main/java/steganography/image/ImageSteg.java:314-320 | the indexed branch reads the colour table with a fresh decoder and builds its couples; it succeeds exactly when getEncoder does, with the same couples or the same error |
| ImageSteg.EncodeAppend | src/main/java/steganography/image/ImageSteg.java:134-138 | two encode calls in a row through one cursor write what one call with the concatenation writes |
| ImageSteg.EncodeThree | src/main/java/steganography/image/ImageSteg.java:134-138 | three encode calls fail for capacity exactly when the whole fails to fit; on failure the parts that fitted before the first part that did not are written; on success the units hold all three parts in a row |
| ImageSteg.ImageSteg.Default | src/main/java/steganography/image/ImageSteg.java:68-71 | the default settings use the header and skip transparent pixels |
| ImageSteg.ImageSteg.constructor | src/main/java/steganography/image/ImageSteg.java:97-100 | keeps the two settings as given |
| ImageSteg.ImageSteg.Frame | src/main/java/steganography/image/ImageSteg.java:134-138 | what encode writes is 8 bytes longer than the payload in header mode and exactly the payload otherwise |
| ImageSteg.ImageSteg.Encode | src/main/java/steganography/image/ImageSteg.java:119-141 | through the overlay getOverlay selects, fails for capacity exactly when the frame does not fit; with the header and 64 units free, the header stays written when the payload is refused; on success the units hold the frame |
| ImageSteg.ImageSteg.Decode | src/main/java/steganography/image/ImageSteg.java:169-189 | through the overlay getOverlay selects, reads four bytes, refuses them as an unknown format unless they are the signature, then reads a four-byte length and exactly that many bytes; a missing unit is no such element |
| ImageSteg.ImageSteg.DecodeRaw | src/main/java/steganography/image/ImageSteg.java:234-245 | returns decode(length) of the encoder with no check |
| ImageSteg.ImageSteg.IsSteganographicData | src/main/java/steganography/image/ImageSteg.java:255-267 | builds PixelBit over the all-pixels overlay whatever useTransparent says: a pixel size other than 24 or 32 is an illegal argument with nothing read; otherwise answers whether the first four bytes are the signature |
| Dates.MonthNumberOfNames | src/main/java/apis/reddit/models/MyDate.java:63-91 | a name is -1 exactly when it abbreviates no month; an abbreviation maps to its position 1..12 in the month list |
| Dates.MonthNumberOfIndex | src/main/java/apis/reddit/models/MyDate.java:63-91 | "Jan".."Dec" map to 1..12 in order |
| Dates.MonthNumber | src/main/java/apis/reddit/models/MyDate.java:63-91 | the number is -1 or a month 1..12, and a month number is given only to that month's name |
| Dates.ParseInt | src/main/java/apis/reddit/models/MyDate.java:94-112 | parseInt succeeds only with a value in the int range, fails with a number format error otherwise, and fails on the empty string |
| Dates.Digits | src/main/java/apis/reddit/models/MyDate.java:94-112 | the decimal form of a natural number is a non-empty string of digits |
| Dates.DigitsValueOfDigits | src/main/java/apis/reddit/models/MyDate.java:94-112 | the value of a number's decimal digits is that number |
| Dates.ParseDecimal | src/main/java/apis/reddit/models/MyDate.java:94-112 | parseInt reads back every int written in decimal, negative ones included |
| Dates.ParseIntRefusesNonDigit | src/main/java/apis/reddit/models/MyDate.java:94-112 | a string with a character that is neither a digit nor a leading sign is a number format error |
| Dates.Zeros | src/main/java/apis/reddit/models/MyDate.java:94-112 | k zero characters form a digit string of length k |
| Dates.Padded | src/main/java/apis/reddit/models/MyDate.java:94-112 | a number padded with zeros to a width is a non-empty digit string at least that wide |
| Dates.DigitsValueOfZeros | src/main/java/apis/reddit/models/MyDate.java:94-112 | leading zeros do not change the value of a digit string |
| Dates.ParsePadded | src/main/java/apis/reddit/models/MyDate.java:94-112 | parseInt reads a zero-padded int back as that int |
| Dates.Pieces | src/main/java/apis/reddit/models/MyDate.java:103-111 | splitting gives at least one piece and no piece holds the separator |
| Dates.JoinPieces | src/main/java/apis/reddit/models/MyDate.java:103-111 | joining the pieces with the separator gives the string back |
| Dates.DropTrailingEmpty | src/main/java/apis/reddit/models/MyDate.java:103-111 | split keeps a prefix of the pieces that does not end in an empty one, and drops only empty ones |
| Dates.Split | src/main/java/apis/reddit/models/MyDate.java:103-111 | no part of a split holds the separator |
| Dates.SplitKeepsPieces | src/main/java/apis/reddit/models/MyDate.java:103-111 | split keeps the leading pieces and drops only trailing empty ones, and the pieces join back to the string |
| Dates.NoSeparatorOnePiece | src/main/java/apis/reddit/models/MyDate.java:103-111 | a string without the separator is its own single piece |
| Dates.Component | src/main/java/apis/reddit/models/MyDate.java:94-112 | a component is read exactly when its index is within the array; otherwise an index error |
| Dates.Parsed | src/main/java/apis/reddit/models/MyDate.java:94-112 | a missing component's error is passed on |
| Dates.Month | src/main/java/apis/reddit/models/MyDate.java:63-91 | getMonth is -1 or a month number 1..12 |
| Dates.Day | src/main/java/apis/reddit/models/MyDate.java:94-96 | getDay is an int or fails with an index error (exactly when there are at most two components) or a number format error |
| Dates.Year | src/main/java/apis/reddit/models/MyDate.java:98-100 | getYear is an int or fails with an index error (exactly when there are at most five components) or a number format error |
| Dates.TimePart | src/main/java/apis/reddit/models/MyDate.java:102-112 | a part of the time component holds no ':' |
| Dates.Hour | src/main/java/apis/reddit/models/MyDate.java:102-104 | getHour is an int or fails with an index error (always when there is no time component) or a number format error |
| Dates.Minute | src/main/java/apis/reddit/models/MyDate.java:106-108 | getMinute is an int or fails with an index error (always when there is no time component) or a number format error |
| Dates.Second | src/main/java/apis/reddit/models/MyDate.java:110-112 | getSecond is an int or fails with an index error (always when there is no time component) or a number format error |
| Dates.FieldsOfText | src/main/java/apis/reddit/models/MyDate.java:94-112 | a date written as "EEE MMM dd HH:mm:ss zzz yyyy", day and time fields zero-padded to two digits and the year to four, gives back its year, month number, day, hour, minute and second |
| Dates.TimeFields | src/main/java/apis/reddit/models/MyDate.java:102-112 | a time component "hh:mm:ss" with zero-padded fields gives hour hh, minute mm and second ss |
| Dates.ThreePieces | src/main/java/apis/reddit/models/MyDate.java:102-112 | three ':'-free strings joined by ':' split back into those three |
| Dates.PiecesOfJoined | src/main/java/apis/reddit/models/MyDate.java:102-112 | a ':'-free first part followed by ':' is the first piece of the split |
| Dates.CompareFrom | src/main/java/apis/reddit/models/MyDate.java:127-139 | comparing from any field on answers -1, 0 or 1 or fails |
| Dates.CompareTo | src/main/java/apis/reddit/models/MyDate.java:122-140 | compareTo, when it does not throw, answers -1, 0 or 1 |
| Dates.Key | src/main/java/apis/reddit/models/MyDate.java:127-133 | the six field values in the order compareTo weighs them: year, month, day, hour, minute, second |
| Dates.CompareFromKeys | src/main/java/apis/reddit/models/MyDate.java:127-139 | on readable dates, comparing from field k on is comparing their field values from k on |
| Dates.KeyCompareLex | src/main/java/apis/reddit/models/MyDate.java:127-139 | comparing field values from k on answers 1 exactly for a lexicographically greater tail and 0 exactly for equal tails |
| Dates.CompareToReadableLex | src/main/java/apis/reddit/models/MyDate.java:127-139 | on readable dates compareTo succeeds; it answers 1 exactly when the fields are lexicographically greater and 0 exactly when they are all equal |
| Dates.NewerIsLexGreater | src/main/java/apis/reddit/models/MyDate.java:127-133 | the six-way condition as written is exactly lexicographic order |
| Dates.CompareToReadable | src/main/java/apis/reddit/models/MyDate.java:127-139 | on readable dates compareTo is the condition as written: 1, else 0 when all six fields are equal, else -1 |
| Dates.CompareToReadsYearFirst | src/main/java/apis/reddit/models/MyDate.java:128 | the year of this date is read first, then the other's; an unreadable year is the error thrown, and different years decide alone |
| Dates.LexGreaterAsymmetric | src/main/java/apis/reddit/models/MyDate.java:127-139 | of two different field sequences exactly one is greater |
| Dates.LexGreaterTransitive | src/main/java/apis/reddit/models/MyDate.java:127-133 | lexicographic order is transitive |
| Dates.CompareToAntisymmetric | src/main/java/apis/reddit/models/MyDate.java:114-139 | compareTo(a, b) == -compareTo(b, a), 0 exactly for equal fields, and compareTo(a, a) == 0 |
| Dates.CompareToTransitive | src/main/java/apis/reddit/models/MyDate.java:127-134 | if a is newer than b and b is newer than c, then a is newer than c |

## Left out

- Image reading and writing through ImageIO are not modelled, and neither
  is converting an image back to bytes. The carrier checks are modelled
  (`CheckCarrier`), with the reader's findings as an input.
- The shuffling overlays and the palette overlay are not part of this
  model, and neither is the palette codec PixelIndex. Their seeded random
  permutation cannot be reproduced, so the overlay takes the visit order as
  a constructor argument (a list of distinct, in-range positions) and
  ignores the seed. The pixels an overlay visits (`Eligible`: all of them,
  or those whose alpha is not zero) are modelled. For an indexed image, the model covers choosing
  the palette codec and building its colour couples, not how that codec
  writes.
- The random channel and direction in changePixelValue are `Choice` inputs.
  Each one is constrained to a channel the pixel has.
- The MP3 frame parser is not modelled. The overlay takes the byte buffer
  and the position list as given.
- The overlay's `setByte` throws when no unit is under the cursor.
  `SequenceOverlay.SetUnit` reports this as `false` instead, and writes
  nothing.
- MyDate's constructor splits `Date.toString()`, which depends on the
  locale and the JDK. The components are the input instead, and `toString`
  is not modelled.
- `ParseInt` accepts ASCII digits only. Java's `Character.digit` also
  accepts other Unicode decimal digits.
- `EqualsIgnoreCase` folds ASCII letters only. This is enough for the
  format names it is used on.
- Null-argument checks are not modelled (the Java arrays cannot be null
  here), except the null colour table of `getColorCouples`.
- ImageSteg.ImageSteg.Encode: payloads of 2^31 bytes or more are not
  covered, because a Java array cannot hold that many.
- ImageSteg.ImageSteg.Encode: with the header and between 32 and 63 units
  free, the contract says only that encoding fails. In that case the
  signature alone stays written (`EncodeThree` states it).
- ImageSteg.BytesToInt requires at least four bytes. Decoding four bytes
  always yields four.
- The seeded shuffle itself is a parameter (`shuffle`), applied to the
  eligible positions of the overlay kind. Only the transparency filter in
  front of it is modelled. ImageSteg's encode and decode take a PixelBit
  encoder whose order is that overlay's order; detection takes the overlay
  and the carrier's pixel size and builds the encoder itself.
- ImageSteg.SettingsRoundTrip: the round trip with the default settings is proved only
  when no written pixel moves between alpha 0 and a non-zero alpha. Encoding
  can break this (`AlphaCanVanish`), and then the decoder rebuilds a
  different visit order from the written image.
- ImageSteg and GIFTableDecoder call the class `PixelBit` of the package
  `steganography.image.encoders`, which is not part of this model. It is
  assumed to behave like `src/main/java/steganography/image/PixelBit.java`,
  the class that is modelled: the same 24/32-bit depth check, the same
  parity rule `pixelIsOne` and the same flip.
- The palette codec's reading of the four signature bytes is an input of
  `DetectByType`, because that codec is not part of this model.
- VideoSteg, AnimatedGif and the social-media clients are not part of this
  model (external tools, threads, HTTP and files). Neither are
  `changeAllPixels`, `main` and the console output of the table decoder.

## Findings

| source | as written | input that shows it | evidently intended | confidence | as-written member | corrected member |
|---|---|---|---|---|---|---|
| src/main/java/steganography/image/PixelBit.java:46 | the capacity check multiplies the payload length by 8 in 32-bit int arithmetic, which wraps around for lengths of 2^28 bytes and more | a payload of 2^28 bytes with no units available: 8 × 2^28 wraps to -2^31, the check passes, and encode runs past the overlay | refuse every payload whose bits exceed the available units | not executed | PixelBit.CapacityCheckOverflows | PixelBit.PixelBitEncoder.Encode |
| src/main/java/steganography/image/ImageSteg.java:263 | isSteganographicData always reads through a ShuffleOverlay over all pixels, while encode and decode use RemoveTransparentShuffleOverlay unless useTransparent is set | default settings and a PNG with a fully transparent pixel: encode shuffles only the visible pixels, detection shuffles all of them, so it reads other pixels than the header was written to | read through the overlay getOverlay selects, as decode does | not executed | ImageSteg.DetectionSkipsEncodeOrder | ImageSteg.SettingsRoundTrip |
| src/main/java/steganography/image/ImageSteg.java:264 | isSteganographicData builds a PixelBit encoder for every carrier, and PixelBit refuses pixel sizes other than 24 and 32 bits | an indexed GIF with a global colour table: encode gives it the palette codec, detection throws IllegalArgumentException | dispatch detection by image type as getEncoder does | not executed | ImageSteg.DetectionRefusesIndexed | ImageSteg.DetectByTypeAnswers |
