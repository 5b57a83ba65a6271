/**
 * What the octets of a certificate's dates look like: YYYY-MM-DDThh:mm:ssZ in ISO 8601, YYMMDDhhmmssZ and
 * YYYYMMDDhhmmssZ in RFC 5280 sections 4.1.2.5.1 and 4.1.2.5.2, a 32-bit count of seconds in either byte
 * order, and the 24 bits of a compressed certificate. The encoders of
 * src/cryptoauthlib/lib/atcacert/atcacert_date.c write, and the decoders accept, exactly that.
 */
module DateForms {
  import opened Bytes
  import opened BigEndian
  import opened DerLength
  import opened DateText
  import opened PosixTime
  import opened PosixDates
  import opened CertDates

  // ----- text -----

  function Two(n: nat): seq<byte>
    requires n < 100
  {
    [48 + n / 10, 48 + n % 10]
  }

  function Four(n: nat): seq<byte>
    requires n < 10000
  {
    [48 + n / 1000, 48 + n / 100 % 10, 48 + n / 10 % 10, 48 + n % 10]
  }

  /** The fields have as many digits as the format gives them; a two-digit year is one of 1950 to 2049. */
  predicate Spellable(f: DateFormat, t: Tm) {
    && (if f.Utc? then 1950 <= t.year + 1900 <= 2049 else 0 <= t.year + 1900 <= 9999)
    && 0 <= t.mon + 1 <= 99 && 0 <= t.mday <= 99 && 0 <= t.hour <= 99 && 0 <= t.min <= 99 && 0 <= t.sec <= 99
  }

  function Spelled(f: DateFormat, t: Tm): seq<byte>
    requires f.IsText() && Spellable(f, t)
  {
    var year := t.year + 1900;
    if f.Iso8601? then
      Four(year) + ['-' as int] + Two(t.mon + 1) + ['-' as int] + Two(t.mday) + ['T' as int]
      + Two(t.hour) + [':' as int] + Two(t.min) + [':' as int] + Two(t.sec) + ['Z' as int]
    else
      (if f.Gen? then Four(year) else Two(year % 100))
      + Two(t.mon + 1) + Two(t.mday) + Two(t.hour) + Two(t.min) + Two(t.sec) + ['Z' as int]
  }

  lemma TwoDigits(n: nat)
    requires n < 100
    ensures Digits(n, 2) == Two(n)
  {
    assert Digits(n / 10, 1) == Digits(n / 10 / 10, 0) + [48 + n / 10 % 10];
  }

  lemma FourDigits(n: nat)
    requires n < 10000
    ensures Digits(n, 4) == Four(n)
  {
    assert n / 10 / 10 == n / 100 && n / 10 / 10 / 10 == n / 1000;
    assert Digits(n / 1000, 1) == Digits(n / 1000 / 10, 0) + [48 + n / 1000 % 10];
    assert Digits(n / 100, 2) == Digits(n / 1000, 1) + [48 + n / 100 % 10];
    assert Digits(n / 10, 3) == Digits(n / 100, 2) + [48 + n / 10 % 10];
  }

  /** The six numbers of the text. */
  function Numbers(f: DateFormat, t: Tm): (v: seq<nat>)
    requires Spellable(f, t)
    ensures |v| == 6
  {
    var year := t.year + 1900;
    [if f.Utc? then year % 100 else year, t.mon + 1, t.mday, t.hour, t.min, t.sec]
  }

  lemma PrintIsSpelled(f: DateFormat, t: Tm)
    requires f.IsText() && Spellable(f, t)
    ensures Print(Layout(f), Numbers(f, t)) == Spelled(f, t) && Fit(Layout(f), Numbers(f, t))
    ensures FromFields(f, Numbers(f, t)) == t
  {
    hide Print, Digits, Two, Four, Pow10;
    var v := Numbers(f, t);
    PrintSix(Layout(f), v);
    PowersOfTen();
    if f.Utc? { TwoDigits(v[0]); } else { FourDigits(v[0]); }
    TwoDigits(v[1]);
    TwoDigits(v[2]);
    TwoDigits(v[3]);
    TwoDigits(v[4]);
    TwoDigits(v[5]);
    SixCells(f, v);
  }

  /** The cells without their empty separators. */
  lemma SixCells(f: DateFormat, v: seq<nat>)
    requires f.IsText() && |v| == 6
    ensures var c, d := Layout(f), (n: nat) => Digits(n, 2);
            CellText(c[0], v[0]) + CellText(c[1], v[1]) + CellText(c[2], v[2])
            + CellText(c[3], v[3]) + CellText(c[4], v[4]) + CellText(c[5], v[5])
            == if f.Iso8601? then
                 Digits(v[0], 4) + [45] + d(v[1]) + [45] + d(v[2]) + [84] + d(v[3]) + [58] + d(v[4]) + [58] + d(v[5]) + [90]
               else
                 Digits(v[0], if f.Gen? then 4 else 2) + d(v[1]) + d(v[2]) + d(v[3]) + d(v[4]) + d(v[5]) + [90]
  {
    hide Digits;
  }

  /** What a text encoder accepts, and what it writes. */
  lemma TextForm(f: DateFormat, t: Tm)
    requires f.IsText()
    ensures EncodeText(f, t).Success?
            <==> && (if f.Utc? then 1950 <= t.year + 1900 <= 2049 else 0 <= t.year + 1900 <= 9999)
                 && 0 <= t.mon <= 11 && 1 <= t.mday <= 31 && 0 <= t.hour <= 23 && 0 <= t.min <= 59 && 0 <= t.sec <= 59
    ensures EncodeText(f, t).Success? ==> Spellable(f, t) && EncodeText(f, t).value == Spelled(f, t)
  {
    hide Print, Layout, Spelled;
    if EncodeText(f, t).Success? {
      PrintIsSpelled(f, t);
      assert Values(f, t) == Numbers(f, t);
    }
  }

  /** What a text decoder accepts, and what it makes of it. */
  lemma TextAccepted(f: DateFormat, s: seq<byte>, t: Tm)
    requires f.IsText() && |s| == f.Size()
    ensures DecodeText(f, s) == Success(t) <==> Spellable(f, t) && s == Spelled(f, t)
  {
    hide Print, Scan, Spelled;
    if DecodeText(f, s) == Success(t) {
      SixWidths(f);
      PrintOfScan(Layout(f), s);
      PowersOfTen();
      var v := Scan(Layout(f), s).value;
      FieldsFit(f, v);
      assert v == Numbers(f, t);
      PrintIsSpelled(f, t);
    }
    if Spellable(f, t) && s == Spelled(f, t) {
      PrintIsSpelled(f, t);
      ScanPrint(Layout(f), Numbers(f, t));
    }
  }

  lemma FieldsFit(f: DateFormat, v: seq<nat>)
    requires f.IsText() && Fit(Layout(f), v)
    ensures |v| == 6 && Spellable(f, FromFields(f, v)) && Numbers(f, FromFields(f, v)) == v
  {
    PowersOfTen();
  }

  function Widths(cells: seq<Cell>): nat {
    if cells == [] then 0 else cells[0].width + |cells[0].sep| + Widths(cells[1..])
  }

  lemma SixWidths(f: DateFormat)
    requires f.IsText()
    ensures Widths(Layout(f)) == f.Size()
  {
    var c := Layout(f);
    assert c[1..][1..] == c[2..] && c[2..][1..] == c[3..] && c[3..][1..] == c[4..] && c[4..][1..] == c[5..] && c[5..][1..] == [];
    assert Widths(c[5..]) == c[5].width + |c[5].sep|;
    assert Widths(c[4..]) == c[4].width + |c[4].sep| + Widths(c[5..]);
    assert Widths(c[3..]) == c[3].width + |c[3].sep| + Widths(c[4..]);
    assert Widths(c[2..]) == c[2].width + |c[2].sep| + Widths(c[3..]);
    assert Widths(c[1..]) == c[1].width + |c[1].sep| + Widths(c[2..]);
  }

  /** A text that scans is the print of what was scanned. */
  lemma {:induction false} PrintOfScan(cells: seq<Cell>, s: seq<byte>)
    requires Scan(cells, s).Some? && |s| == Widths(cells)
    ensures Fit(cells, Scan(cells, s).value) && Print(cells, Scan(cells, s).value) == s
  {
    hide Parse, Digits;
    if cells != [] {
      var c, v := cells[0], Scan(cells, s).value;
      var w := c.width + |c.sep|;
      PrintOfScan(cells[1..], s[w..]);
      DigitsOfParse(s[..c.width]);
      assert v[1..] == Scan(cells[1..], s[w..]).value;
      assert s == s[..c.width] + s[c.width..w] + s[w..];
    }
  }

  /** Digits that parse are the digits of the number. */
  lemma {:induction false} DigitsOfParse(s: seq<byte>)
    requires Parse(s).Some?
    ensures Parse(s).value < Pow10(|s|) && Digits(Parse(s).value, |s|) == s
  {
    hide Parse, Digits, Pow10;
    if s == [] {
      NoDigits();
    } else {
      var front, c := s[..|s| - 1], s[|s| - 1];
      FrontParses(s);
      DigitsOfParse(front);
      ParseLast(front, c);
      assert s == front + [c];
      LastDigit(Parse(front).value, c - ZERO, |s|);
    }
  }

  lemma LastDigit(n: nat, d: nat, width: nat)
    requires d < 10 && width > 0
    ensures Digits(10 * n + d, width) == Digits(n, width - 1) + [ZERO + d]
    ensures n < Pow10(width - 1) ==> 10 * n + d < Pow10(width)
  {
    assert (10 * n + d) / 10 == n && (10 * n + d) % 10 == d;
  }

  lemma NoDigits()
    ensures Parse([]) == Some(0) && Digits(0, 0) == [] && Pow10(0) == 1
  {
  }

  lemma {:induction false} FrontParses(s: seq<byte>)
    requires s != [] && Parse(s).Some?
    ensures Parse(s[..|s| - 1]).Some? && IsDigit(s[|s| - 1])
  {
    if |s| > 1 {
      FrontParses(s[1..]);
      assert s[..|s| - 1][1..] == s[1..][..|s| - 2];
    }
  }

  // ----- counts -----

  /** Four octets, the most significant one first or last. */
  function Count(b: seq<byte>, little: bool): nat
    requires |b| == 4
  {
    var b0: int, b1: int, b2: int, b3: int := b[0], b[1], b[2], b[3];
    if little then b3 * 0x100_0000 + b2 * 0x1_0000 + b1 * 0x100 + b0
    else b0 * 0x100_0000 + b1 * 0x1_0000 + b2 * 0x100 + b3
  }

  lemma CountIsValue(b: seq<byte>, little: bool)
    requires |b| == 4
    ensures Value(if little then Reversed(b) else b) == Count(b, little) < U32
  {
    var s: seq<byte> := if little then [b[3], b[2], b[1], b[0]] else [b[0], b[1], b[2], b[3]];
    assert s == if little then Reversed(b) else b;
    assert s[..3] == [s[0], s[1], s[2]] && s[..3][..2] == [s[0], s[1]] && s[..3][..2][..1] == [s[0]] && s[..3][..2][..1][..0] == [];
    var s0: int, s1: int, s2: int := s[0], s[1], s[2];
    assert Value(s[..3][..2][..1]) == s0;
    assert Value(s[..3][..2]) == s0 * 0x100 + s1;
    assert Value(s[..3]) == (s0 * 0x100 + s1) * 0x100 + s2;
  }

  /** From 1970 up to, but not including, 2106-02-07 06:28:15, in seconds since 1970; days need not exist. */
  lemma PosixForm(t: Tm, little: bool)
    ensures EncodePosix(t, little).Success?
            <==> && 70 <= t.year && 0 <= t.mon <= 11 && 1 <= t.mday <= 31 && 0 <= t.hour <= 23 && 0 <= t.min <= 59 && 0 <= t.sec <= 59
                 && Before(t, Tm(15, 28, 6, 7, 1, 206))
    ensures EncodePosix(t, little).Success? ==> Count(EncodePosix(t, little).value, little) == Seconds(t)
  {
    hide Seconds, Octets, Value, Reversed;
    if EncodePosix(t, little).Success? {
      EncodableFits(t);
      OctetCountOfWord(Seconds(t));
      ValueOfOctets(Seconds(t), 4);
      ReversedTwice(Octets(Seconds(t), 4));
      CountIsValue(EncodePosix(t, little).value, little);
    }
  }

  /** Any four octets are a count, and so a date that exists. */
  lemma PosixAccepted(b: seq<byte>, little: bool)
    requires |b| == 4
    ensures IsCalendar(DecodePosix(b, little)) && Seconds(DecodePosix(b, little)) == Count(b, little)
  {
    hide Seconds, Gmtime, Value, IsCalendar, Reversed;
    CountIsValue(b, little);
    GmtimeSound(Count(b, little));
  }

  // ----- the packing -----

  /** Five bits of year, four of month, five of day, five of hour, five of validity. */
  function PackedBits(t: Tm, years: int): int {
    ((((t.year - 100) * 16 + t.mon + 1) * 32 + t.mday) * 32 + t.hour) * 32 + years
  }

  function Word24(b: seq<byte>): nat
    requires |b| == 3
  {
    var b0: int, b1: int, b2: int := b[0], b[1], b[2];
    b0 * 0x1_0000 + b1 * 0x100 + b2
  }

  function Octets24(n: nat): (b: seq<byte>)
    requires n < 0x100_0000
    ensures |b| == 3 && Word24(b) == n
  {
    [n / 0x1_0000, n / 0x100 % 0x100, n % 0x100]
  }

  lemma PackForm(t: Tm, years: nat)
    ensures Pack(t, years).Success?
            <==> 2000 <= t.year + 1900 <= 2031 && 0 <= t.mon <= 11 && 1 <= t.mday <= 31 && 0 <= t.hour <= 23 && years <= 31
    ensures Pack(t, years).Success? ==> Word24(Pack(t, years).value) == PackedBits(t, years)
    ensures Pack(t, years).Success? ==>
              0 <= PackedBits(t, years) < 0x100_0000 && Pack(t, years).value == Octets24(PackedBits(t, years))
  {
    if Pack(t, years).Success? {
      PackWord(t, years);
      var b := Pack(t, years).value;
      WordParts(b);
      assert b == [b[0], b[1], b[2]];
    }
  }

  lemma PackWord(t: Tm, years: nat)
    requires Pack(t, years).Success?
    ensures Word24(Pack(t, years).value) == PackedBits(t, years)
  {
  }

  lemma UnpackForm(b: seq<byte>)
    requires |b| == 3
    ensures var (t, years) := Unpack(b);
            && Word24(b) == PackedBits(t, years) && t.min == 0 && t.sec == 0
            && 100 <= t.year <= 131 && -1 <= t.mon <= 14 && 0 <= t.mday <= 31 && 0 <= t.hour <= 31 && years <= 31
  {
  }

  /** Three octets are determined by their 24 bits. */
  lemma SameWord(a: seq<byte>, b: seq<byte>)
    requires |a| == |b| == 3 && Word24(a) == Word24(b)
    ensures a == b
  {
    WordParts(a);
    WordParts(b);
    assert a == [a[0], a[1], a[2]] && b == [b[0], b[1], b[2]];
  }

  lemma WordParts(b: seq<byte>)
    requires |b| == 3
    ensures b[0] == Word24(b) / 0x1_0000 && b[1] == Word24(b) / 0x100 % 0x100 && b[2] == Word24(b) % 0x100
  {
    var b0: int, b1: int, b2: int := b[0], b[1], b[2];
    var low := b1 * 0x100 + b2;
    assert Word24(b) == b0 * 0x1_0000 + low && Word24(b) == (b0 * 0x100 + b1) * 0x100 + b2;
    assert Word24(b) / 0x100 == b0 * 0x100 + b1;
  }

  /** No date that can be written in a text format is later than its maximal date. */
  lemma NothingLater(f: DateFormat, t: Tm)
    requires f.IsText() && EncodeDate(f, t).Success?
    ensures !Before(MaxDate(f), t)
  {
  }
}
