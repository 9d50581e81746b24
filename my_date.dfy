/** The date of a Reddit post (MyDate): the six blank-separated components of
    the date's text form, read back field by field, and the comparison that
    orders posts from newest to oldest.  The components are taken as given;
    producing them from a java.util.Date is not modelled. */
module Dates {
  import opened Common

  datatype MyDate = MyDate(components: seq<string>)

  // ---------------------------------------------------------------------------
  // getMonth
  // ---------------------------------------------------------------------------

  const MONTHS: seq<string> :=
    ["Jan", "Feb", "Mar", "Apr", "May", "Jun", "Jul", "Aug", "Sep", "Oct", "Nov", "Dec"]

  /** The switch of getMonth: January is 1, December 12, anything else -1. */
  function MonthNumber(name: string): (r: int)
    ensures r == -1 || 1 <= r <= 12
    ensures 1 <= r <= 12 ==> name == MONTHS[r - 1]
  {
    if name == "Jan" then 1
    else if name == "Feb" then 2
    else if name == "Mar" then 3
    else if name == "Apr" then 4
    else if name == "May" then 5
    else if name == "Jun" then 6
    else if name == "Jul" then 7
    else if name == "Aug" then 8
    else if name == "Sep" then 9
    else if name == "Oct" then 10
    else if name == "Nov" then 11
    else if name == "Dec" then 12
    else -1
  }

  /** A string that abbreviates no month is -1, and an abbreviation is the
      number of its place in the year. */
  lemma MonthNumberOfNames(name: string)
    ensures name !in MONTHS <==> MonthNumber(name) == -1
    ensures name in MONTHS ==> 1 <= MonthNumber(name) <= 12 && MONTHS[MonthNumber(name) - 1] == name
  {}

  /** The k-th abbreviation names month k + 1. */
  lemma MonthNumberOfIndex(k: nat)
    requires k < 12
    ensures MonthNumber(MONTHS[k]) == k + 1
  {
    MonthNumberOfNames(MONTHS[k]);
    assert forall i, j :: 0 <= i < j < 12 ==> MONTHS[i] != MONTHS[j];
  }

  // ---------------------------------------------------------------------------
  // Integer.parseInt
  // ---------------------------------------------------------------------------

  predicate IsDigit(c: char)
  {
    '0' <= c <= '9'
  }

  predicate AllDigits(s: string)
  {
    forall i :: 0 <= i < |s| ==> IsDigit(s[i])
  }

  /** The value of a string of decimal digits, most significant first. */
  function DigitsValue(s: string): (v: nat)
    requires AllDigits(s)
  {
    if s == [] then 0 else DigitsValue(s[..|s| - 1]) * 10 + (s[|s| - 1] as int - '0' as int)
  }

  /** Integer.parseInt with radix 10: an optional sign, at least one digit,
      and a value that fits in an int; NumberFormatException otherwise. */
  function ParseInt(s: string): (r: Result<int, Error>)
    ensures r.Success? ==> -0x8000_0000 <= r.value < 0x8000_0000
    ensures r.Failure? ==> r.error == NumberFormat
    ensures s == [] ==> r.Failure?
  {
    if s == [] then Failure(NumberFormat)
    else
      var signed := s[0] == '-' || s[0] == '+';
      var digits := if signed then s[1..] else s;
      if digits == [] || !AllDigits(digits) then Failure(NumberFormat)
      else
        var v: int := if s[0] == '-' then -(DigitsValue(digits) as int) else DigitsValue(digits);
        if v < -0x8000_0000 || 0x8000_0000 <= v then Failure(NumberFormat) else Success(v)
  }

  /** The decimal digits of a natural number, without leading zeros. */
  function Digits(n: nat): (s: string)
    ensures s != [] && AllDigits(s)
  {
    if n < 10 then [('0' as int + n) as char] else Digits(n / 10) + [('0' as int + n % 10) as char]
  }

  /** Integer.toString: the partner that parseInt inverts. */
  function Decimal(n: int): (s: string)
  {
    if n < 0 then "-" + Digits(-n) else Digits(n)
  }

  lemma {:induction false} DigitsValueOfDigits(n: nat)
    ensures DigitsValue(Digits(n)) == n
  {
    if n >= 10 {
      DigitsValueOfDigits(n / 10);
      var s := Digits(n);
      assert s[..|s| - 1] == Digits(n / 10);
    }
  }

  /** parseInt reads back every int that toString writes. */
  lemma ParseDecimal(n: Int32)
    ensures ParseInt(Decimal(n)) == Success(n)
  {
    if n < 0 {
      var digits := Digits(-(n as int));
      DigitsValueOfDigits(-(n as int));
      assert Decimal(n) == "-" + digits;
      assert ("-" + digits)[1..] == digits;
    } else {
      var digits := Digits(n);
      DigitsValueOfDigits(n);
      assert IsDigit(digits[0]);
    }
  }

  /** k zero digits. */
  function Zeros(k: nat): (s: string)
    ensures |s| == k && AllDigits(s)
  {
    seq(k, i => '0')
  }

  /** n in decimal, with leading zeros up to the given width, as the day and
      the hh:mm:ss fields of a date's text are written. */
  function Padded(n: nat, width: nat): (s: string)
    ensures s != [] && AllDigits(s) && |s| >= width
  {
    var d := Digits(n);
    if |d| < width then Zeros(width - |d|) + d else d
  }

  /** Leading zeros add nothing to the value of a digit string. */
  lemma {:induction false} DigitsValueOfZeros(k: nat, s: string)
    requires AllDigits(s)
    ensures DigitsValue(Zeros(k) + s) == DigitsValue(s)
  {
    if s == [] {
      assert Zeros(k) + s == Zeros(k);
      if k > 0 {
        assert Zeros(k)[..k - 1] == Zeros(k - 1);
        DigitsValueOfZeros(k - 1, s);
        assert Zeros(k - 1) + s == Zeros(k - 1);
      }
    } else {
      assert (Zeros(k) + s)[..|Zeros(k) + s| - 1] == Zeros(k) + s[..|s| - 1];
      DigitsValueOfZeros(k, s[..|s| - 1]);
    }
  }

  /** parseInt reads a zero-padded number back as that number. */
  lemma ParsePadded(n: nat, width: nat)
    requires n < 0x8000_0000
    ensures ParseInt(Padded(n, width)) == Success(n as int)
  {
    var d := Digits(n);
    DigitsValueOfDigits(n);
    if |d| < width {
      DigitsValueOfZeros(width - |d|, d);
    }
    assert IsDigit(Padded(n, width)[0]);
  }

  /** A string with a character that is neither a digit nor a leading sign
      is refused. */
  lemma ParseIntRefusesNonDigit(s: string, i: int)
    requires 0 <= i < |s| && !IsDigit(s[i]) && (i > 0 || (s[0] != '-' && s[0] != '+'))
    ensures ParseInt(s) == Failure(NumberFormat)
  {
    if s[0] == '-' || s[0] == '+' {
      assert s[1..][i - 1] == s[i];
    }
  }

  // ---------------------------------------------------------------------------
  // String.split on ':'
  // ---------------------------------------------------------------------------

  /** Every piece between separators, empty pieces included. */
  function Pieces(s: string, sep: char): (r: seq<string>)
    ensures |r| >= 1
    ensures forall k :: 0 <= k < |r| ==> sep !in r[k]
  {
    if s == [] then [""]
    else
      var rest := Pieces(s[1..], sep);
      if s[0] == sep then [""] + rest else [[s[0]] + rest[0]] + rest[1..]
  }

  /** The pieces joined back with the separator between them. */
  function Join(parts: seq<string>, sep: char): string
    requires |parts| >= 1
  {
    if |parts| == 1 then parts[0] else parts[0] + [sep] + Join(parts[1..], sep)
  }

  /** Splitting then joining gives the string back. */
  lemma {:induction false} JoinPieces(s: string, sep: char)
    ensures Join(Pieces(s, sep), sep) == s
  {
    if s != [] {
      var rest := Pieces(s[1..], sep);
      JoinPieces(s[1..], sep);
      if s[0] == sep {
        assert Pieces(s, sep)[1..] == rest;
      } else if |rest| == 1 {
        assert Pieces(s, sep) == [[s[0]] + rest[0]];
      } else {
        assert Pieces(s, sep)[1..] == rest[1..];
        assert Join(rest, sep) == rest[0] + [sep] + Join(rest[1..], sep);
      }
    }
  }

  /** The pieces without the empty ones at the end. */
  function DropTrailingEmpty(parts: seq<string>): (r: seq<string>)
    ensures r <= parts
    ensures r == [] || r[|r| - 1] != ""
    ensures forall k :: |r| <= k < |parts| ==> parts[k] == ""
  {
    if parts == [] || parts[|parts| - 1] != "" then parts else DropTrailingEmpty(parts[..|parts| - 1])
  }

  /** String.split(regex) with a one-character regex and limit 0: the
      string itself when the separator does not occur, otherwise the pieces
      with the trailing empty ones removed. */
  function Split(s: string, sep: char): (r: seq<string>)
    ensures forall k :: 0 <= k < |r| ==> sep !in r[k]
  {
    if sep !in s then [s] else DropTrailingEmpty(Pieces(s, sep))
  }

  /** The parts split keeps are the first pieces, the ones it drops are
      empty, and the pieces join back to the string. */
  lemma SplitKeepsPieces(s: string, sep: char)
    ensures Split(s, sep) <= Pieces(s, sep)
    ensures forall k :: |Split(s, sep)| <= k < |Pieces(s, sep)| ==> Pieces(s, sep)[k] == ""
    ensures Join(Pieces(s, sep), sep) == s
  {
    JoinPieces(s, sep);
    if sep !in s {
      NoSeparatorOnePiece(s, sep);
    }
  }

  lemma {:induction false} NoSeparatorOnePiece(s: string, sep: char)
    requires sep !in s
    ensures Pieces(s, sep) == [s]
  {
    if s != [] {
      assert s == [s[0]] + s[1..];
      NoSeparatorOnePiece(s[1..], sep);
    }
  }

  // ---------------------------------------------------------------------------
  // The getters
  // ---------------------------------------------------------------------------

  function Component(d: MyDate, i: nat): (r: Result<string, Error>)
    ensures r.Success? <==> i < |d.components|
  {
    if i < |d.components| then Success(d.components[i]) else Failure(IndexOutOfBounds)
  }

  function Parsed(s: Result<string, Error>): (r: Result<int, Error>)
    ensures s.Failure? ==> r == Failure(s.error)
  {
    if s.Failure? then Failure(s.error) else ParseInt(s.value)
  }

  /** getMonth: component 1 looked up in the month table. */
  function Month(d: MyDate): (r: Result<int, Error>)
    ensures r.Success? ==> r.value == -1 || 1 <= r.value <= 12
  {
    if 1 < |d.components| then Success(MonthNumber(d.components[1])) else Failure(IndexOutOfBounds)
  }

  /** getDay: component 2 parsed as it stands. */
  function Day(d: MyDate): (r: Result<int, Error>)
    ensures r.Success? ==> -0x8000_0000 <= r.value < 0x8000_0000
    ensures r.Failure? ==> r.error in {IndexOutOfBounds, NumberFormat}
    ensures r == Failure(IndexOutOfBounds) <==> |d.components| <= 2
  {
    Parsed(Component(d, 2))
  }

  /** getYear: component 5 parsed. */
  function Year(d: MyDate): (r: Result<int, Error>)
    ensures r.Success? ==> -0x8000_0000 <= r.value < 0x8000_0000
    ensures r.Failure? ==> r.error in {IndexOutOfBounds, NumberFormat}
    ensures r == Failure(IndexOutOfBounds) <==> |d.components| <= 5
  {
    Parsed(Component(d, 5))
  }

  /** Part k of component 3 split on ':'. */
  function TimePart(d: MyDate, k: nat): (r: Result<string, Error>)
    ensures r.Success? ==> ':' !in r.value
  {
    if |d.components| <= 3 then Failure(IndexOutOfBounds)
    else
      var parts := Split(d.components[3], ':');
      if k < |parts| then Success(parts[k]) else Failure(IndexOutOfBounds)
  }

  /** getHour: the first part of the time component, parsed. */
  function Hour(d: MyDate): (r: Result<int, Error>)
    ensures r.Success? ==> -0x8000_0000 <= r.value < 0x8000_0000
    ensures r.Failure? ==> r.error in {IndexOutOfBounds, NumberFormat}
    ensures |d.components| <= 3 ==> r == Failure(IndexOutOfBounds)
  {
    Parsed(TimePart(d, 0))
  }

  /** getMinute: the second part of the time component, parsed. */
  function Minute(d: MyDate): (r: Result<int, Error>)
    ensures r.Success? ==> -0x8000_0000 <= r.value < 0x8000_0000
    ensures r.Failure? ==> r.error in {IndexOutOfBounds, NumberFormat}
    ensures |d.components| <= 3 ==> r == Failure(IndexOutOfBounds)
  {
    Parsed(TimePart(d, 1))
  }

  /** getSecond: the third part of the time component, parsed. */
  function Second(d: MyDate): (r: Result<int, Error>)
    ensures r.Success? ==> -0x8000_0000 <= r.value < 0x8000_0000
    ensures r.Failure? ==> r.error in {IndexOutOfBounds, NumberFormat}
    ensures |d.components| <= 3 ==> r == Failure(IndexOutOfBounds)
  {
    Parsed(TimePart(d, 2))
  }

  /** The fields in the order compareTo weighs them. */
  function Field(d: MyDate, k: nat): Result<int, Error>
    requires k < 6
  {
    if k == 0 then Year(d)
    else if k == 1 then Month(d)
    else if k == 2 then Day(d)
    else if k == 3 then Hour(d)
    else if k == 4 then Minute(d)
    else Second(d)
  }

  /** The fields of a date written out in its usual text form,
      "EEE MMM dd HH:mm:ss zzz yyyy" with the day and the time fields padded
      to two digits and the year to four, come back from the getters. */
  lemma FieldsOfText(day: string, month: nat, date: nat, h: nat, m: nat, s: nat, zone: string, year: nat)
    requires 1 <= month <= 12 && date < 0x8000_0000 && year < 0x8000_0000
    requires h < 0x8000_0000 && m < 0x8000_0000 && s < 0x8000_0000
    ensures var d := MyDate([day, MONTHS[month - 1], Padded(date, 2),
                             Padded(h, 2) + ":" + Padded(m, 2) + ":" + Padded(s, 2), zone, Padded(year, 4)]);
            && Year(d) == Success(year as int) && Month(d) == Success(month as int)
            && Day(d) == Success(date as int) && Hour(d) == Success(h as int)
            && Minute(d) == Success(m as int) && Second(d) == Success(s as int)
  {
    var d := MyDate([day, MONTHS[month - 1], Padded(date, 2),
                     Padded(h, 2) + ":" + Padded(m, 2) + ":" + Padded(s, 2), zone, Padded(year, 4)]);
    MonthNumberOfIndex(month - 1);
    ParsePadded(date, 2);
    ParsePadded(year, 4);
    TimeFields(d, h, m, s);
  }

  /** A time component "hh:mm:ss" gives hour hh, minute mm and second ss. */
  lemma TimeFields(d: MyDate, h: nat, m: nat, s: nat)
    requires h < 0x8000_0000 && m < 0x8000_0000 && s < 0x8000_0000
    requires |d.components| > 3 && d.components[3] == Padded(h, 2) + ":" + Padded(m, 2) + ":" + Padded(s, 2)
    ensures Hour(d) == Success(h as int) && Minute(d) == Success(m as int) && Second(d) == Success(s as int)
  {
    assert forall k :: 0 <= k < 2 ==> IsDigit(Padded(h, 2)[k]) && IsDigit(Padded(m, 2)[k]);
    assert forall k :: 0 <= k < |Padded(s, 2)| ==> IsDigit(Padded(s, 2)[k]);
    ThreePieces(Padded(h, 2), Padded(m, 2), Padded(s, 2));
    ParsePadded(h, 2);
    ParsePadded(m, 2);
    ParsePadded(s, 2);
  }

  /** Three separator-free strings joined by ':', the last one not empty,
      split back into those three strings. */
  lemma ThreePieces(a: string, b: string, c: string)
    requires ':' !in a && ':' !in b && ':' !in c && c != []
    ensures Split(a + ":" + b + ":" + c, ':') == [a, b, c]
  {
    var s := a + ":" + b + ":" + c;
    assert s == a + ":" + (b + ":" + c);
    assert s[|a|] == ':';
    PiecesOfJoined(a, b + ":" + c);
    PiecesOfJoined(b, c);
    NoSeparatorOnePiece(c, ':');
    assert Pieces(s, ':') == [a, b, c];
  }

  /** A separator-free string, the separator and the rest: the first piece
      is that string, the others are the pieces of the rest. */
  lemma {:induction false} PiecesOfJoined(a: string, rest: string)
    requires ':' !in a
    ensures Pieces(a + ":" + rest, ':') == [a] + Pieces(rest, ':')
  {
    if a == [] {
      assert a + ":" + rest == [':'] + rest;
    } else {
      assert (a + ":" + rest)[1..] == a[1..] + ":" + rest;
      assert a == [a[0]] + a[1..];
      PiecesOfJoined(a[1..], rest);
    }
  }

  // ---------------------------------------------------------------------------
  // compareTo
  // ---------------------------------------------------------------------------

  /** compareTo from field k on.  The condition of compareTo short-circuits
      field by field: this date's field is read, then the other's (either
      read may throw); a greater field answers 1 and a smaller one -1
      without reading further, and equal fields go on to the next. */
  function CompareFrom(a: MyDate, b: MyDate, k: nat): (r: Result<int, Error>)
    requires k <= 6
    ensures r.Success? ==> -1 <= r.value <= 1
    decreases 6 - k
  {
    if k == 6 then Success(0)
    else match Field(a, k)
      case Failure(e) => Failure(e)
      case Success(x) =>
        match Field(b, k)
        case Failure(e) => Failure(e)
        case Success(y) =>
          if x > y then Success(1) else if x < y then Success(-1) else CompareFrom(a, b, k + 1)
  }

  /** compareTo: 1 when this date is newer, 0 when all six fields agree,
      -1 when it is older. */
  function CompareTo(a: MyDate, b: MyDate): (r: Result<int, Error>)
    ensures r.Success? ==> -1 <= r.value <= 1
  {
    CompareFrom(a, b, 0)
  }

  /** The six fields, when every getter succeeds. */
  predicate Readable(d: MyDate)
  {
    forall k :: 0 <= k < 6 ==> Field(d, k).Success?
  }

  function Key(d: MyDate): (key: seq<int>)
    requires Readable(d)
    ensures |key| == 6 && forall k :: 0 <= k < 6 ==> key[k] == Field(d, k).value
  {
    [Field(d, 0).value, Field(d, 1).value, Field(d, 2).value,
     Field(d, 3).value, Field(d, 4).value, Field(d, 5).value]
  }

  /** The condition of compareTo as written, over the six field values
      (year, month, day, hour, minute, second). */
  predicate NewerAsWritten(x: seq<int>, y: seq<int>)
    requires |x| == 6 && |y| == 6
  {
    || x[0] > y[0]
    || (x[0] == y[0] && x[1] > y[1])
    || (x[0] == y[0] && x[1] == y[1] && x[2] > y[2])
    || (x[0] == y[0] && x[1] == y[1] && x[2] == y[2] && x[3] > y[3])
    || (x[0] == y[0] && x[1] == y[1] && x[2] == y[2] && x[3] == y[3] && x[4] > y[4])
    || (x[0] == y[0] && x[1] == y[1] && x[2] == y[2] && x[3] == y[3] && x[4] == y[4] && x[5] > y[5])
  }

  /** The answer of compareTo as written: 1 under the condition, 0 when the
      six values are equal, -1 otherwise. */
  function CompareAsWritten(x: seq<int>, y: seq<int>): int
    requires |x| == 6 && |y| == 6
  {
    if NewerAsWritten(x, y) then 1
    else if x[0] == y[0] && x[1] == y[1] && x[2] == y[2] && x[3] == y[3] && x[4] == y[4] && x[5] == y[5] then 0
    else -1
  }

  /** Lexicographic order of equally long sequences, the reference the
      comparison is measured against. */
  predicate LexGreater(x: seq<int>, y: seq<int>)
    requires |x| == |y|
  {
    |x| > 0 && (x[0] > y[0] || (x[0] == y[0] && LexGreater(x[1..], y[1..])))
  }

  /** Two field sequences compared from index k on, greater first. */
  function KeyCompare(x: seq<int>, y: seq<int>, k: nat): int
    requires |x| == |y| && k <= |x|
    decreases |x| - k
  {
    if k == |x| then 0 else if x[k] > y[k] then 1 else if x[k] < y[k] then -1 else KeyCompare(x, y, k + 1)
  }

  /** On dates whose fields can all be read, compareTo from field k on
      never throws and compares the field values. */
  lemma {:induction false} CompareFromKeys(a: MyDate, b: MyDate, x: seq<int>, y: seq<int>, k: nat)
    requires Readable(a) && Readable(b) && x == Key(a) && y == Key(b) && k <= 6
    ensures CompareFrom(a, b, k) == Success(KeyCompare(x, y, k))
    decreases 6 - k
  {
    if k < 6 {
      assert Field(a, k) == Success(x[k]) && Field(b, k) == Success(y[k]);
      CompareFromKeys(a, b, x, y, k + 1);
    }
  }

  /** Comparing from k on answers 1 exactly for lexicographically greater
      suffixes and 0 exactly for equal ones. */
  lemma {:induction false} KeyCompareLex(x: seq<int>, y: seq<int>, k: nat)
    requires |x| == |y| && k <= |x|
    ensures KeyCompare(x, y, k) == 1 <==> LexGreater(x[k..], y[k..])
    ensures KeyCompare(x, y, k) == 0 <==> x[k..] == y[k..]
    decreases |x| - k
  {
    if k < |x| {
      KeyCompareLex(x, y, k + 1);
      assert x[k..][1..] == x[k + 1..] && y[k..][1..] == y[k + 1..];
      assert x[k..] == [x[k]] + x[k + 1..] && y[k..] == [y[k]] + y[k + 1..];
    }
  }

  /** On dates whose fields can all be read, compareTo never throws, answers
      1 exactly when this date's fields are lexicographically greater and 0
      exactly when they are equal. */
  lemma CompareToReadableLex(a: MyDate, b: MyDate)
    requires Readable(a) && Readable(b)
    ensures CompareTo(a, b).Success?
    ensures CompareTo(a, b).value == 1 <==> LexGreater(Key(a), Key(b))
    ensures CompareTo(a, b).value == 0 <==> Key(a) == Key(b)
  {
    CompareFromKeys(a, b, Key(a), Key(b), 0);
    KeyCompareLex(Key(a), Key(b), 0);
    assert Key(a)[0..] == Key(a) && Key(b)[0..] == Key(b);
  }

  /** The six-way condition as written is lexicographic order. */
  lemma NewerIsLexGreater(x: seq<int>, y: seq<int>)
    requires |x| == 6 && |y| == 6
    ensures NewerAsWritten(x, y) <==> LexGreater(x, y)
  {
    assert x[5..][1..] == [] && y[5..][1..] == [];
    assert LexGreater(x[5..], y[5..]) <==> x[5] > y[5];
    assert x[4..][1..] == x[5..] && y[4..][1..] == y[5..];
    assert LexGreater(x[4..], y[4..]) <==> x[4] > y[4] || (x[4] == y[4] && LexGreater(x[5..], y[5..]));
    assert x[3..][1..] == x[4..] && y[3..][1..] == y[4..];
    assert LexGreater(x[3..], y[3..]) <==> x[3] > y[3] || (x[3] == y[3] && LexGreater(x[4..], y[4..]));
    assert x[2..][1..] == x[3..] && y[2..][1..] == y[3..];
    assert LexGreater(x[2..], y[2..]) <==> x[2] > y[2] || (x[2] == y[2] && LexGreater(x[3..], y[3..]));
    assert x[1..][1..] == x[2..] && y[1..][1..] == y[2..];
    assert LexGreater(x[1..], y[1..]) <==> x[1] > y[1] || (x[1] == y[1] && LexGreater(x[2..], y[2..]));
  }

  /** On dates whose six fields can be read, compareTo never throws and
      answers what the expression as written answers. */
  lemma CompareToReadable(a: MyDate, b: MyDate)
    requires Readable(a) && Readable(b)
    ensures CompareTo(a, b) == Success(CompareAsWritten(Key(a), Key(b)))
  {
    CompareToReadableLex(a, b);
    NewerIsLexGreater(Key(a), Key(b));
  }

  /** The year is read first: an unreadable year of this date is the
      exception, whatever the other date holds; with both years readable and
      different, nothing else is read. */
  lemma CompareToReadsYearFirst(a: MyDate, b: MyDate)
    ensures Year(a).Failure? ==> CompareTo(a, b) == Failure(Year(a).error)
    ensures Year(a).Success? && Year(b).Failure? ==> CompareTo(a, b) == Failure(Year(b).error)
    ensures Year(a).Success? && Year(b).Success? && Year(a).value != Year(b).value ==>
              CompareTo(a, b) == Success(if Year(a).value > Year(b).value then 1 else -1)
  {}

  lemma {:induction false} LexGreaterAsymmetric(x: seq<int>, y: seq<int>)
    requires |x| == |y|
    ensures LexGreater(x, y) ==> !LexGreater(y, x)
    ensures !LexGreater(x, y) && !LexGreater(y, x) ==> x == y
  {
    if |x| > 0 {
      LexGreaterAsymmetric(x[1..], y[1..]);
      if x[0] == y[0] && x[1..] == y[1..] {
        assert x == [x[0]] + x[1..] && y == [y[0]] + y[1..];
      }
    }
  }

  lemma {:induction false} LexGreaterTransitive(x: seq<int>, y: seq<int>, z: seq<int>)
    requires |x| == |y| == |z|
    requires LexGreater(x, y) && LexGreater(y, z)
    ensures LexGreater(x, z)
  {
    if x[0] == y[0] && y[0] == z[0] {
      LexGreaterTransitive(x[1..], y[1..], z[1..]);
    }
  }

  /** compareTo is antisymmetric and answers 0 exactly for equal fields: a
      date compares to itself as 0. */
  lemma CompareToAntisymmetric(a: MyDate, b: MyDate)
    requires Readable(a) && Readable(b)
    ensures CompareTo(a, b).value == -CompareTo(b, a).value
    ensures CompareTo(a, b).value == 0 <==> Key(a) == Key(b)
    ensures CompareTo(a, a) == Success(0)
  {
    CompareToReadableLex(a, b);
    CompareToReadableLex(b, a);
    CompareToReadableLex(a, a);
    LexGreaterAsymmetric(Key(a), Key(b));
  }

  /** compareTo is transitive: newer than a date that is newer than a third
      is newer than the third. */
  lemma CompareToTransitive(a: MyDate, b: MyDate, c: MyDate)
    requires Readable(a) && Readable(b) && Readable(c)
    requires CompareTo(a, b) == Success(1) && CompareTo(b, c) == Success(1)
    ensures CompareTo(a, c) == Success(1)
  {
    CompareToReadableLex(a, b);
    CompareToReadableLex(b, c);
    CompareToReadableLex(a, c);
    LexGreaterTransitive(Key(a), Key(b), Key(c));
  }
}
