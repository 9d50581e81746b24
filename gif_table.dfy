/** The GIF colour-table reader and the colour-couple builder of the palette
    codec (GIFTableDecoder).  The reader checks the "GIF89a" signature of a
    Graphics Interchange Format, Version 89a file (section 17 of that
    standard), reads the packed-fields byte of the Logical Screen Descriptor
    at offset 10 (section 18) and, when its global-colour-table flag is set,
    turns the 2^(N+1) RGB triples that start at offset 13 (section 19) into
    packed ARGB ints.  The file bytes are the raw bit patterns of Java bytes;
    the reader ORs them into an int after Java's sign extension, and the model
    does the same. */
module GifTable {
  import opened Common
  import PixelBit

  /** The six signature bytes "GIF89a". */
  const GIF89A: seq<Byte> := [0x47, 0x49, 0x46, 0x38, 0x39, 0x61]

  // ---------------------------------------------------------------------------
  // Colour-table entries
  // ---------------------------------------------------------------------------

  /** color << 8 on a Java int: the low 24 bits move up one byte and the
      result is read back as a signed 32-bit value. */
  function ShiftLeft8(color: Int32): (r: Int32)
    ensures r % 256 == 0
    ensures (r - color * 256) % 0x1_0000_0000 == 0
  {
    var v := (color % 0x100_0000) * 256;
    if v < 0x8000_0000 then v else v - 0x1_0000_0000
  }

  /** (color << 8) | b where b is a file byte widened to int with sign
      extension: below 0x80 the byte fills the zero low byte; from 0x80 on
      the widened byte has bits 8..31 set, which swamps everything shifted
      in before it. */
  function ShiftIn(color: Int32, b: Byte): (r: Int32)
    ensures r % 256 == b
  {
    if b < 0x80 then ShiftLeft8(color) + b else b - 256
  }

  /** One table entry as globalColorTable computes it: start from 0xFF and
      shift in red, green and blue. */
  function Entry(red: Byte, green: Byte, blue: Byte): (r: Int32)
    ensures r % 256 == blue
  {
    ShiftIn(ShiftIn(ShiftIn(0xFF, red), green), blue)
  }

  /** With green and blue below 0x80 the entry is the opaque ARGB value
      0xFF, r, g, b read as a signed int; a red byte of 0x80 or more only
      sets alpha bits that are already set. */
  lemma EntryOfLowGreenBlue(red: Byte, green: Byte, blue: Byte)
    requires green < 0x80 && blue < 0x80
    ensures Entry(red, green, blue) == 0xFF00_0000 + red * 0x1_0000 + green * 0x100 + blue - 0x1_0000_0000
  {
    var x := ShiftIn(0xFF, red);
    var y := ShiftIn(x, green);
    if red < 0x80 {
      assert x == 0xFF00 + red;
      assert y == 0xFF_0000 + red * 0x100 + green;
    } else {
      assert x == red - 0x100;
      assert x % 0x100_0000 == x + 0x100_0000;
      assert y == red * 0x100 + green - 0x1_0000;
    }
    assert y % 0x100_0000 == y + (if y < 0 then 0x100_0000 else 0);
  }

  /** A blue byte of 0x80 or more overwrites alpha, red and green with ones:
      the entry is 0xFFFFFF00 | blue. */
  lemma EntryBlueHigh(red: Byte, green: Byte, blue: Byte)
    requires blue >= 0x80
    ensures Entry(red, green, blue) == 0xFFFF_FF00 + blue - 0x1_0000_0000
  {}

  /** A green byte of 0x80 or more (blue below 0x80) overwrites alpha and
      red: the entry is 0xFFFF0000 | green << 8 | blue. */
  lemma EntryGreenHigh(red: Byte, green: Byte, blue: Byte)
    requires green >= 0x80 && blue < 0x80
    ensures Entry(red, green, blue) == 0xFFFF_0000 + green * 0x100 + blue - 0x1_0000_0000
  {}

  /** A byte value 0..255 read as a signed Java byte. */
  function Signed8(b: Byte): (r: int)
    ensures -128 <= r < 128 && (r - b) % 256 == 0
  {
    if b < 128 then b else b - 256
  }

  /** getRed: (color << 8) >> 24 with an arithmetic shift keeps bits 16..23
      and sign-extends them.  Dafny's / and % floor for a positive divisor,
      so (color / 2^16) % 256 are those bits for negative colours too. */
  function GetRed(color: Int32): (r: int)
    ensures -128 <= r < 128 && (r - color / 0x1_0000) % 256 == 0
  {
    Signed8((color / 0x1_0000) % 256)
  }

  /** getGreen: (color << 16) >> 24, bits 8..15 sign-extended. */
  function GetGreen(color: Int32): (r: int)
    ensures -128 <= r < 128 && (r - color / 0x100) % 256 == 0
  {
    Signed8((color / 0x100) % 256)
  }

  /** getBlue: (color << 24) >> 24, bits 0..7 sign-extended. */
  function GetBlue(color: Int32): (r: int)
    ensures -128 <= r < 128 && (r - color) % 256 == 0
  {
    Signed8(color % 256)
  }

  /** Channels below 0x80 read back as stored. */
  lemma ChannelsOfPlainEntry(red: Byte, green: Byte, blue: Byte)
    requires red < 0x80 && green < 0x80 && blue < 0x80
    ensures GetRed(Entry(red, green, blue)) == red
    ensures GetGreen(Entry(red, green, blue)) == green
    ensures GetBlue(Entry(red, green, blue)) == blue
  {
    EntryOfLowGreenBlue(red, green, blue);
    var e := Entry(red, green, blue);
    assert e == (red - 256) * 0x1_0000 + (green * 0x100 + blue);
    assert e / 0x1_0000 == red - 256;
    assert e == (red * 0x100 + green - 0x1_0000) * 0x100 + blue;
    assert e / 0x100 == red * 0x100 + green - 0x1_0000;
  }

  /** With a blue byte of 0x80 or more, red and green read back as -1. */
  lemma ChannelsOfBlueHighEntry(red: Byte, green: Byte, blue: Byte)
    requires blue >= 0x80
    ensures GetRed(Entry(red, green, blue)) == -1 && GetGreen(Entry(red, green, blue)) == -1
    ensures GetBlue(Entry(red, green, blue)) == blue - 256
  {
    EntryBlueHigh(red, green, blue);
  }

  // ---------------------------------------------------------------------------
  // The global colour table
  // ---------------------------------------------------------------------------

  /** The number of entries 2^(N+1) announced by a size field N. */
  function TableSize(n: nat): (size: nat)
    requires n < 8
    ensures 2 <= size <= 256
  {
    if n == 0 then 2 else if n == 1 then 4 else if n == 2 then 8 else if n == 3 then 16
    else if n == 4 then 32 else if n == 5 then 64 else if n == 6 then 128 else 256
  }

  lemma TableSizeIsPower(n: nat)
    requires n < 8
    ensures TableSize(n) == Pow2(n + 1)
  {
    assert Pow2(1) == 2 && Pow2(2) == 4 && Pow2(3) == 8 && Pow2(4) == 16;
    assert Pow2(5) == 32 && Pow2(6) == 64 && Pow2(7) == 128 && Pow2(8) == 256;
  }

  /** The low three bits of the packed-fields byte: the size field N. */
  function SizeField(packed: Byte): (n: nat)
    ensures n < 8
  {
    packed % 8
  }

  /** The first n entries of the table, three bytes each from offset 13. */
  function Entries(gif: seq<Byte>, n: nat): (r: seq<Int32>)
    requires n == 0 || 13 + 3 * n <= |gif|
    ensures |r| == n
  {
    if n == 0 then [] else Entries(gif, n - 1) + [Entry(gif[10 + 3 * n], gif[11 + 3 * n], gif[12 + 3 * n])]
  }

  lemma {:induction false} EntriesAt(gif: seq<Byte>, n: nat, j: nat)
    requires 13 + 3 * n <= |gif| && j < n
    ensures Entries(gif, n)[j] == Entry(gif[13 + 3 * j], gif[14 + 3 * j], gif[15 + 3 * j])
  {
    if j < n - 1 {
      EntriesAt(gif, n - 1, j);
    }
  }

  /** Bit 7 of the packed-fields byte: a global colour table follows. */
  predicate FlagSet(packed: Byte)
  {
    packed >= 0x80
  }

  /** Whether the data starts with the GIF89a signature. */
  predicate IsGif89a(gif: seq<Byte>)
  {
    |gif| > |GIF89A| && gif[..|GIF89A|] == GIF89A
  }

  /** What saveColorTable finds in a file: a failure, no global table (the
      flag in bit 7 of byte 10 is clear), or the table it reads. */
  function GlobalTable(gif: seq<Byte>): (r: Result<Option<seq<Int32>>, Error>)
    ensures r.Failure? ==> r.error in {IllegalArgument, IndexOutOfBounds}
    ensures r.Success? ==> IsGif89a(gif) && |gif| > 10 && FlagSet(gif[10]) == r.value.Some?
    ensures r.Success? && r.value.Some? ==> |gif| > 10 && |r.value.value| == TableSize(SizeField(gif[10]))
  {
    if !IsGif89a(gif) then Failure(IllegalArgument)
    else if |gif| <= 10 then Failure(IndexOutOfBounds)
    else if !FlagSet(gif[10]) then Success(None)
    else if |gif| < 13 + 3 * TableSize(SizeField(gif[10])) then Failure(IndexOutOfBounds)
    else Success(Some(Entries(gif, TableSize(SizeField(gif[10])))))
  }

  /** Data without the signature is rejected as an illegal argument, and that
      is the only reason for that failure. */
  lemma RejectsNonGif(gif: seq<Byte>)
    ensures GlobalTable(gif) == Failure(IllegalArgument) <==> !IsGif89a(gif)
    ensures GlobalTable(gif).Failure? ==> GlobalTable(gif).error in {IllegalArgument, IndexOutOfBounds}
  {}

  /** A table that is read has 2^(N+1) entries, and entry j is built from the
      red, green and blue bytes at offsets 13 + 3j, 14 + 3j and 15 + 3j. */
  lemma TableLayout(gif: seq<Byte>, j: nat)
    requires GlobalTable(gif).Success? && GlobalTable(gif).value.Some?
    ensures |GlobalTable(gif).value.value| == Pow2(SizeField(gif[10]) + 1)
    ensures 13 + 3 * |GlobalTable(gif).value.value| <= |gif|
    ensures j < |GlobalTable(gif).value.value| ==>
      GlobalTable(gif).value.value[j] == Entry(gif[13 + 3 * j], gif[14 + 3 * j], gif[15 + 3 * j])
  {
    TableSizeIsPower(SizeField(gif[10]));
    if j < TableSize(SizeField(gif[10])) {
      EntriesAt(gif, TableSize(SizeField(gif[10])), j);
    }
  }

  /** A table is read exactly when the signature is present, the flag is set
      and the file holds all of the table's bytes. */
  lemma TableReadWhenPresent(gif: seq<Byte>)
    ensures GlobalTable(gif).Success? && GlobalTable(gif).value.Some? <==>
      IsGif89a(gif) && |gif| > 10 && FlagSet(gif[10]) && 13 + 3 * TableSize(SizeField(gif[10])) <= |gif|
    ensures GlobalTable(gif) == Success(None) <==> IsGif89a(gif) && |gif| > 10 && !FlagSet(gif[10])
  {}

  // ---------------------------------------------------------------------------
  // Colour couples
  // ---------------------------------------------------------------------------

  function Abs(x: int): nat
  {
    if x < 0 then -x else x
  }

  /** The three channel tests of getColorCouples: every signed channel value
      differs by at most 8. */
  predicate Close(a: Int32, b: Int32)
  {
    Abs(GetRed(a) - GetRed(b)) <= 8 && Abs(GetGreen(a) - GetGreen(b)) <= 8 && Abs(GetBlue(a) - GetBlue(b)) <= 8
  }

  /** The bit pattern of a Java int, as pixelIsOne sees it. */
  function AsBits32(color: Int32): bv32
  {
    (if color < 0 then color + 0x1_0000_0000 else color) as bv32
  }

  /** Two colours form a couple when they are close and carry opposite bits. */
  predicate IsCouple(a: Int32, b: Int32)
  {
    Close(a, b) && PixelBit.PixelIsOne(AsBits32(a)) != PixelBit.PixelIsOne(AsBits32(b))
  }

  lemma CoupleSymmetric(a: Int32, b: Int32)
    ensures IsCouple(a, b) <==> IsCouple(b, a)
  {
    CloseSymmetric(a, b);
  }

  lemma CloseSymmetric(a: Int32, b: Int32)
    ensures Close(a, b) <==> Close(b, a)
  {
    AbsSymmetric(GetRed(a), GetRed(b));
    AbsSymmetric(GetGreen(a), GetGreen(b));
    AbsSymmetric(GetBlue(a), GetBlue(b));
  }

  lemma AbsSymmetric(x: int, y: int)
    ensures Abs(x - y) == Abs(y - x)
  {}

  /** No colour is its own partner, so the index test i != j never decides. */
  lemma CoupleIrreflexive(a: Int32)
    ensures !IsCouple(a, a)
  {}

  /** The partners of colour c among the entries of t, in table order. */
  function PartnersIn(t: seq<Int32>, c: Int32): (r: seq<Int32>)
    ensures |r| <= |t|
    ensures forall p :: p in r ==> p in t && IsCouple(c, p)
  {
    if t == [] then []
    else PartnersIn(t[..|t| - 1], c) + (if IsCouple(c, t[|t| - 1]) then [t[|t| - 1]] else [])
  }

  /** The list holds exactly the entries that form a couple with c. */
  lemma {:induction false} PartnersInMembers(t: seq<Int32>, c: Int32, p: Int32)
    ensures p in PartnersIn(t, c) <==> p in t && IsCouple(c, p)
  {
    if t != [] {
      PartnersInMembers(t[..|t| - 1], c, p);
      assert t == t[..|t| - 1] + [t[|t| - 1]];
    }
  }

  lemma PartnersInStep(t: seq<Int32>, c: Int32, j: nat)
    requires j < |t|
    ensures PartnersIn(t[..j + 1], c) == PartnersIn(t[..j], c) + (if IsCouple(c, t[j]) then [t[j]] else [])
  {
    assert t[..j + 1][..j] == t[..j];
  }

  /** Partners keep the order of the table. */
  lemma {:induction false} PartnersInAppend(a: seq<Int32>, b: seq<Int32>, c: Int32)
    ensures PartnersIn(a + b, c) == PartnersIn(a, c) + PartnersIn(b, c)
  {
    if b == [] {
      assert a + b == a;
    } else {
      assert (a + b)[..|a + b| - 1] == a + b[..|b| - 1];
      PartnersInAppend(a, b[..|b| - 1], c);
    }
  }

  /** The map after the first n passes of the outer loop: each entry whose
      partner list is not empty is put under its colour, later entries
      replacing earlier ones with the same colour. */
  function CouplesOf(t: seq<Int32>, n: nat): (r: map<Int32, seq<Int32>>)
    requires n <= |t|
    ensures forall k :: k in r ==> k in t[..n] && |r[k]| > 0
  {
    if n == 0 then map[]
    else
      var partners := PartnersIn(t, t[n - 1]);
      if |partners| > 0 then CouplesOf(t, n - 1)[t[n - 1] := partners] else CouplesOf(t, n - 1)
  }

  /** The map getColorCouples builds: every table colour with at least one
      partner, mapped to its partners. */
  function Couples(t: seq<Int32>): (r: map<Int32, seq<Int32>>)
    ensures forall k :: k in r ==> k in t && |r[k]| > 0
  {
    CouplesOf(t, |t|)
  }

  lemma {:induction false} CouplesOfSpec(t: seq<Int32>, n: nat, k: Int32)
    requires n <= |t|
    ensures k in CouplesOf(t, n) <==> k in t[..n] && |PartnersIn(t, k)| > 0
    ensures k in CouplesOf(t, n) ==> CouplesOf(t, n)[k] == PartnersIn(t, k)
  {
    if n > 0 {
      CouplesOfSpec(t, n - 1, k);
      assert t[..n] == t[..n - 1] + [t[n - 1]];
      var partners := PartnersIn(t, t[n - 1]);
      if |partners| > 0 {
        assert CouplesOf(t, n) == CouplesOf(t, n - 1)[t[n - 1] := partners];
        if k != t[n - 1] && k in CouplesOf(t, n) {
          assert k in CouplesOf(t, n - 1);
          assert CouplesOf(t, n)[k] == CouplesOf(t, n - 1)[k];
        }
      } else {
        assert CouplesOf(t, n) == CouplesOf(t, n - 1);
      }
    }
  }

  /** The keys are the table colours with at least one partner in the table,
      and each maps to all its partners, in table order. */
  lemma CouplesSpec(t: seq<Int32>, k: Int32, p: Int32)
    ensures k in Couples(t) <==> k in t && exists q :: q in t && IsCouple(k, q)
    ensures k in Couples(t) ==> Couples(t)[k] == PartnersIn(t, k) && |Couples(t)[k]| > 0
    ensures k in Couples(t) ==> (p in Couples(t)[k] <==> p in t && IsCouple(k, p))
  {
    CouplesOfSpec(t, |t|, k);
    assert t[..|t|] == t;
    if exists q :: q in t && IsCouple(k, q) {
      var q :| q in t && IsCouple(k, q);
      PartnersInMembers(t, k, q);
    }
    if |PartnersIn(t, k)| > 0 {
      PartnersInMembers(t, k, PartnersIn(t, k)[0]);
    }
    PartnersInMembers(t, k, p);
  }

  /** Couples go both ways, and no colour is coupled with itself. */
  lemma CouplesSymmetric(t: seq<Int32>, k: Int32, p: Int32)
    requires k in Couples(t) && p in Couples(t)[k]
    ensures p in Couples(t) && k in Couples(t)[p]
    ensures p != k
  {
    CouplesSpec(t, k, p);
    CoupleSymmetric(k, p);
    CouplesSpec(t, p, k);
  }

  // ---------------------------------------------------------------------------
  // The decoder
  // ---------------------------------------------------------------------------

  class GifTableDecoder {
    /** The last table read; null until one is read. */
    var colorTable: array?<Int32>

    constructor ()
      ensures colorTable == null
    {
      colorTable := null;
    }

    /** saveColorTable: checks the signature byte by byte, then reads the
        global table if the file has one.  The table read is kept and
        returned; without one, the table kept from an earlier call (null on a
        fresh decoder) is returned. */
    method SaveColorTable(gif: seq<Byte>) returns (r: Result<array?<Int32>, Error>)
      modifies this
      ensures r.Failure? <==> GlobalTable(gif).Failure?
      ensures r.Failure? ==> r.error == GlobalTable(gif).error && colorTable == old(colorTable)
      ensures GlobalTable(gif) == Success(None) ==> colorTable == old(colorTable) && r == Success(colorTable)
      ensures GlobalTable(gif).Success? && GlobalTable(gif).value.Some? ==>
        colorTable != null && fresh(colorTable) && colorTable[..] == GlobalTable(gif).value.value &&
        r == Success(colorTable)
    {
      if |gif| <= |GIF89A| {
        return Failure(IllegalArgument);
      }
      var i := 0;
      while i < |GIF89A|
        invariant 0 <= i <= |GIF89A| && gif[..i] == GIF89A[..i]
      {
        if GIF89A[i] != gif[i] {
          return Failure(IllegalArgument);
        }
        i := i + 1;
      }
      if |gif| <= 10 {
        return Failure(IndexOutOfBounds);
      }
      if FlagSet(gif[10]) {
        var table := GlobalColorTable(gif, SizeField(gif[10]));
        if table.Failure? {
          return Failure(table.error);
        }
        colorTable := table.value;
      }
      return Success(colorTable);
    }

    /** globalColorTable: allocates 2^(length+1) entries and fills them from
        offset 13, failing at the first byte past the end of the data. */
    method GlobalColorTable(gif: seq<Byte>, length: nat) returns (r: Result<array<Int32>, Error>)
      requires length < 8
      ensures r.Failure? <==> |gif| < 13 + 3 * TableSize(length)
      ensures r.Failure? ==> r.error == IndexOutOfBounds
      ensures r.Success? ==> fresh(r.value) && r.value[..] == Entries(gif, TableSize(length))
    {
      var i := 13;
      var table := new Int32[TableSize(length)];
      var j := 0;
      while j < table.Length
        invariant 0 <= j <= table.Length && i == 13 + 3 * j && (j == 0 || i <= |gif|)
        invariant table[..j] == Entries(gif, j)
      {
        if i + 2 >= |gif| {
          return Failure(IndexOutOfBounds);
        }
        var color: Int32 := 0xFF;
        color := ShiftIn(color, gif[i]);
        i := i + 1;
        color := ShiftIn(color, gif[i]);
        i := i + 1;
        color := ShiftIn(color, gif[i]);
        i := i + 1;
        table[j] := color;
        assert table[..j + 1] == table[..j] + [color];
        j := j + 1;
      }
      return Success(table);
    }

    /** getColorCouples: for every entry, the list of the other entries it
        forms a couple with, put into the map under the entry's colour when
        the list is not empty. */
    method GetColorCouples(table: array?<Int32>) returns (r: Result<map<Int32, seq<Int32>>, Error>)
      ensures table == null ==> r == Failure(NullPointer)
      ensures table != null ==> r == Success(Couples(table[..]))
    {
      if table == null {
        return Failure(NullPointer);
      }
      ghost var t := table[..];
      var colorCouples := map[];
      var i := 0;
      while i < table.Length
        invariant 0 <= i <= table.Length && colorCouples == CouplesOf(t, i)
      {
        var couples := [];
        var pixelIsOne := PixelBit.PixelIsOne(AsBits32(table[i]));
        var j := 0;
        while j < table.Length
          invariant 0 <= j <= table.Length && couples == PartnersIn(t[..j], t[i])
        {
          PartnersInStep(t, t[i], j);
          if i != j && Close(table[i], table[j]) && pixelIsOne != PixelBit.PixelIsOne(AsBits32(table[j])) {
            couples := couples + [table[j]];
          }
          if i == j {
            CoupleIrreflexive(t[i]);
          }
          j := j + 1;
        }
        assert t[..table.Length] == t;
        if |couples| > 0 {
          colorCouples := colorCouples[table[i] := couples];
        }
        i := i + 1;
      }
      return Success(colorCouples);
    }
  }
}
