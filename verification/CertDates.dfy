/**
 * The date formats of a certificate (RFC 5280 sections 4.1.2.5.1 and 4.1.2.5.2, ISO 8601, POSIX
 * counts) and the 24-bit packing of a compressed certificate:
 * src/cryptoauthlib/lib/atcacert/atcacert_date.c.
 */
module CertDates {
  import opened Bytes
  import opened DateText
  import opened PosixTime
  import opened PosixDates

  datatype DateFormat = Iso8601 | Utc | PosixBe | PosixLe | Gen {
    predicate IsText() { Iso8601? || Utc? || Gen? }

    /** ATCACERT_DATE_FORMAT_SIZES. */
    function Size(): nat {
      match this case Iso8601 => 20 case Utc => 13 case PosixBe => 4 case PosixLe => 4 case Gen => 15
    }
  }

  // ----- text formats: six numbers, each followed by its separator -----

  datatype Cell = Cell(width: nat, sep: seq<byte>)

  /** Year, month, day, hour, minute, second; the separators spell --T::Z in ISO 8601 and Z elsewhere. */
  function Layout(f: DateFormat): (cells: seq<Cell>)
    requires f.IsText()
    ensures |cells| == 6
  {
    if f.Iso8601? then
      [Cell(4, [0x2D]), Cell(2, [0x2D]), Cell(2, [0x54]), Cell(2, [0x3A]), Cell(2, [0x3A]), Cell(2, [0x5A])]
    else
      [Cell(if f.Gen? then 4 else 2, []), Cell(2, []), Cell(2, []), Cell(2, []), Cell(2, []), Cell(2, [0x5A])]
  }

  function CellText(c: Cell, value: nat): (s: seq<byte>)
    ensures |s| == c.width + |c.sep|
  {
    Digits(value, c.width) + c.sep
  }

  function Print(cells: seq<Cell>, values: seq<nat>): seq<byte>
    requires |cells| == |values|
  {
    if cells == [] then [] else CellText(cells[0], values[0]) + Print(cells[1..], values[1..])
  }

  function Scan(cells: seq<Cell>, s: seq<byte>): (r: Option<seq<nat>>)
    ensures r.Some? ==> |r.value| == |cells|
  {
    if cells == [] then Some([])
    else
      var c := cells[0];
      if |s| < c.width + |c.sep| || Parse(s[..c.width]).None? || s[c.width..c.width + |c.sep|] != c.sep then None
      else
        match Scan(cells[1..], s[c.width + |c.sep|..])
        case None => None
        case Some(rest) => Some([Parse(s[..c.width]).value] + rest)
  }

  ghost predicate Fit(cells: seq<Cell>, values: seq<nat>) {
    |cells| == |values| && forall i :: 0 <= i < |cells| ==> values[i] < Pow10(cells[i].width)
  }

  lemma {:induction false} ScanPrint(cells: seq<Cell>, values: seq<nat>)
    requires Fit(cells, values)
    ensures Scan(cells, Print(cells, values)) == Some(values)
  {
    if cells != [] {
      hide Parse, Digits, CellText;
      var c, s := cells[0], Print(cells, values);
      ScanPrint(cells[1..], values[1..]);
      ParseDigits(values[0], c.width);
      CellParts(c, values[0], Print(cells[1..], values[1..]));
      assert [values[0]] + values[1..] == values;
    }
  }

  lemma CellParts(c: Cell, value: nat, rest: seq<byte>)
    ensures var s := CellText(c, value) + rest;
            && s[..c.width] == Digits(value, c.width)
            && s[c.width..c.width + |c.sep|] == c.sep
            && s[c.width + |c.sep|..] == rest
  {
  }

  // ----- the printer -----

  /** The checks every text encoder makes, field by field. */
  predicate Encodable(f: DateFormat, t: Tm) {
    && (if f.Utc? then 1950 <= t.year + 1900 <= 2049 else 0 <= t.year + 1900 <= 9999)
    && 0 <= t.mon <= 11 && 1 <= t.mday <= 31 && 0 <= t.hour <= 23 && 0 <= t.min <= 59 && 0 <= t.sec <= 59
  }

  function YearField(f: DateFormat, t: Tm): nat
    requires Encodable(f, t)
  {
    var year := t.year + 1900;
    if !f.Utc? then year else if year <= 1999 then year - 1900 else year - 2000
  }

  function Values(f: DateFormat, t: Tm): (v: seq<nat>)
    requires Encodable(f, t)
    ensures |v| == 6
  {
    [YearField(f, t), t.mon + 1, t.mday, t.hour, t.min, t.sec]
  }

  function EncodeText(f: DateFormat, t: Tm): (r: Result<seq<byte>>)
    requires f.IsText()
    ensures r.Success? ==> |r.value| == f.Size()
  {
    if Encodable(f, t) then
      PrintSix(Layout(f), Values(f, t));
      Success(Print(Layout(f), Values(f, t)))
    else Failure(InvalidDate)
  }

  /** The decoders accept any digits; they check separators only. */
  function FromFields(f: DateFormat, v: seq<nat>): Tm
    requires |v| == 6
  {
    var field: int, mon: int := v[0], v[1];
    var year := if !f.Utc? then field - 1900 else if field < 50 then field + 100 else field;
    Tm(v[5], v[4], v[3], v[2], mon - 1, year)
  }

  function DecodeText(f: DateFormat, s: seq<byte>): Result<Tm>
    requires f.IsText()
  {
    match Scan(Layout(f), s)
    case None => Failure(DecodingError)
    case Some(v) => Success(FromFields(f, v))
  }

  lemma PowersOfTen()
    ensures Pow10(2) == 100 && Pow10(4) == 10000
  {
    assert Pow10(1) == 10;
    assert Pow10(3) == 1000;
  }

  lemma ValuesFit(f: DateFormat, t: Tm)
    requires f.IsText() && Encodable(f, t)
    ensures Fit(Layout(f), Values(f, t))
  {
    PowersOfTen();
  }

  /** Every date a text encoder accepts comes back unchanged, whether or not it exists. */
  lemma TextRoundTrip(f: DateFormat, t: Tm)
    requires f.IsText() && EncodeText(f, t).Success?
    ensures DecodeText(f, EncodeText(f, t).value) == Success(t)
  {
    hide Scan, Print, Layout;
    ValuesFit(f, t);
    ScanPrint(Layout(f), Values(f, t));
  }

  /** The text is the six cells one after the other. */
  lemma PrintSix(cells: seq<Cell>, v: seq<nat>)
    requires |cells| == |v| == 6
    ensures Print(cells, v)
            == CellText(cells[0], v[0]) + CellText(cells[1], v[1]) + CellText(cells[2], v[2])
               + CellText(cells[3], v[3]) + CellText(cells[4], v[4]) + CellText(cells[5], v[5])
  {
    hide CellText, Print;
    PrintTwo(cells, v);
    PrintTwo(cells[2..], v[2..]);
    PrintTwo(cells[4..], v[4..]);
    assert cells[2..][2..] == cells[4..] && v[2..][2..] == v[4..];
    PrintNone(cells[4..][2..], v[4..][2..]);
    var two := CellText(cells[0], v[0]) + CellText(cells[1], v[1]);
    var four := two + CellText(cells[2], v[2]) + CellText(cells[3], v[3]);
    RegroupThree(two, CellText(cells[2], v[2]), CellText(cells[3], v[3]), Print(cells[4..], v[4..]));
    RegroupThree(four, CellText(cells[4], v[4]), CellText(cells[5], v[5]), []);
    assert four + CellText(cells[4], v[4]) + CellText(cells[5], v[5]) + [] == four + CellText(cells[4], v[4]) + CellText(cells[5], v[5]);
  }

  lemma RegroupThree<T>(x: seq<T>, a: seq<T>, b: seq<T>, rest: seq<T>)
    ensures x + (a + b + rest) == x + a + b + rest
  {
  }

  lemma PrintNone(cells: seq<Cell>, v: seq<nat>)
    requires cells == [] && v == []
    ensures Print(cells, v) == []
  {
  }

  lemma PrintTwo(cells: seq<Cell>, v: seq<nat>)
    requires |cells| == |v| >= 2
    ensures Print(cells, v) == CellText(cells[0], v[0]) + CellText(cells[1], v[1]) + Print(cells[2..], v[2..])
  {
    hide CellText;
    assert cells[1..][1..] == cells[2..] && v[1..][1..] == v[2..];
    Regroup(CellText(cells[0], v[0]), CellText(cells[1], v[1]), Print(cells[2..], v[2..]));
  }

  method PutCell(c: Cell, value: nat, buf: array<byte>, at: nat) returns (end: nat)
    requires value < Pow10(c.width) && at + c.width + |c.sep| <= buf.Length
    modifies buf
    ensures end == at + c.width + |c.sep|
    ensures buf[..] == Splice(old(buf[..]), at, CellText(c, value))
  {
    hide Splice;
    ghost var was: seq<byte> := buf[..];
    end := UintToStr(value, c.width, buf, at);
    CopyInto(buf, end, c.sep);
    SpliceAppend(was, at, Digits(value, c.width), c.sep);
    end := end + |c.sep|;
  }

  /** One of the six fields as the encoders compute it, in range or not. */
  function Field(f: DateFormat, t: Tm, k: nat): int
    requires k < 6
  {
    match k
    case 0 => if !f.Utc? then t.year + 1900 else if t.year + 1900 <= 1999 then t.year else t.year - 100
    case 1 => t.mon + 1
    case 2 => t.mday
    case 3 => t.hour
    case 4 => t.min
    case _ => t.sec
  }

  /** The check an encoder makes before it writes a field. */
  predicate InRange(f: DateFormat, t: Tm, k: nat)
    requires k < 6
  {
    match k
    case 0 => if f.Utc? then 1950 <= t.year + 1900 <= 2049 else 0 <= t.year + 1900 <= 9999
    case 1 => 0 <= t.mon <= 11
    case 2 => 1 <= t.mday <= 31
    case 3 => 0 <= t.hour <= 23
    case 4 => 0 <= t.min <= 59
    case _ => 0 <= t.sec <= 59
  }

  /** How many fields are written: those in front of the first one out of range. */
  function Written(f: DateFormat, t: Tm): (n: nat)
    ensures n <= 6 && (n < 6 ==> !InRange(f, t, n)) && forall k :: 0 <= k < n ==> InRange(f, t, k)
  {
    if !InRange(f, t, 0) then 0 else if !InRange(f, t, 1) then 1 else if !InRange(f, t, 2) then 2
    else if !InRange(f, t, 3) then 3 else if !InRange(f, t, 4) then 4 else if !InRange(f, t, 5) then 5 else 6
  }

  /** How many octets the first k fields take. */
  function Offset(f: DateFormat, k: nat): nat
    requires f.IsText() && k <= 6
  {
    if k == 0 then 0 else Offset(f, k - 1) + Layout(f)[k - 1].width + |Layout(f)[k - 1].sep|
  }

  lemma Offsets(f: DateFormat)
    requires f.IsText()
    ensures Offset(f, 0) == 0 && Offset(f, 6) == f.Size()
    ensures forall k :: 0 <= k < 6 ==> Offset(f, k + 1) == Offset(f, k) + Layout(f)[k].width + |Layout(f)[k].sep| <= f.Size()
  {
    assert Offset(f, 2) == Offset(f, 1) + Layout(f)[1].width + |Layout(f)[1].sep|;
    assert Offset(f, 4) == Offset(f, 3) + Layout(f)[3].width + |Layout(f)[3].sep|;
  }

  lemma FieldFits(f: DateFormat, t: Tm, k: nat)
    requires f.IsText() && k < 6 && InRange(f, t, k)
    ensures 0 <= Field(f, t, k) < Pow10(Layout(f)[k].width)
  {
    PowersOfTen();
  }

  ghost predicate AllInRange(f: DateFormat, t: Tm, k: nat)
    requires k <= 6
  {
    forall j :: 0 <= j < k ==> InRange(f, t, j)
  }

  /** The text of the first k fields. */
  ghost function TextOf(f: DateFormat, t: Tm, k: nat): (s: seq<byte>)
    requires f.IsText() && k <= 6 && AllInRange(f, t, k)
    ensures |s| == Offset(f, k)
  {
    if k == 0 then []
    else
      FieldFits(f, t, k - 1);
      TextOf(f, t, k - 1) + CellText(Layout(f)[k - 1], Field(f, t, k - 1))
  }

  /** All six fields are the whole text. */
  lemma WholeText(f: DateFormat, t: Tm)
    requires f.IsText()
    ensures Encodable(f, t) <==> AllInRange(f, t, 6)
    ensures EncodeText(f, t) == if Encodable(f, t) then Success(TextOf(f, t, 6)) else Failure(InvalidDate)
  {
    hide Layout, CellText, Print;
    if Encodable(f, t) {
      assert AllInRange(f, t, 6);
      var cells, v := Layout(f), Values(f, t);
      PrintSix(cells, v);
      OneByOne(f, t);
    } else {
      assert !InRange(f, t, 0) || !InRange(f, t, 1) || !InRange(f, t, 2) || !InRange(f, t, 3) || !InRange(f, t, 4) || !InRange(f, t, 5);
    }
  }

  lemma OneByOne(f: DateFormat, t: Tm)
    requires f.IsText() && Encodable(f, t) && AllInRange(f, t, 6)
    ensures var cells, v := Layout(f), Values(f, t);
            TextOf(f, t, 6)
            == CellText(cells[0], v[0]) + CellText(cells[1], v[1]) + CellText(cells[2], v[2])
               + CellText(cells[3], v[3]) + CellText(cells[4], v[4]) + CellText(cells[5], v[5])
  {
    hide Layout, CellText;
    var cells, v := Layout(f), Values(f, t);
    TextStep(f, t, 1);
    TextStep(f, t, 2);
    TextStep(f, t, 3);
    TextStep(f, t, 4);
    TextStep(f, t, 5);
    TextStep(f, t, 6);
    assert [] + CellText(cells[0], v[0]) == CellText(cells[0], v[0]);
  }

  lemma TextStep(f: DateFormat, t: Tm, k: nat)
    requires f.IsText() && 1 <= k <= 6 && AllInRange(f, t, k)
    ensures 0 <= Field(f, t, k - 1)
    ensures TextOf(f, t, k) == TextOf(f, t, k - 1) + CellText(Layout(f)[k - 1], Field(f, t, k - 1))
    ensures TextOf(f, t, 0) == []
  {
    hide CellText, Layout;
    FieldFits(f, t, k - 1);
  }

  /**
   * atcacert_date_enc_iso8601_sep, _rfc5280_utc and _rfc5280_gen, which differ only in the year and the
   * separators. A date that is refused leaves the fields in front of the offending one in the buffer.
   */
  method EncText(f: DateFormat, t: Tm, buf: array<byte>, at: nat) returns (st: Status)
    requires f.IsText() && at + f.Size() <= buf.Length
    modifies buf
    ensures st == EncodeText(f, t).Code()
    ensures st.Ok? ==> buf[..] == Splice(old(buf[..]), at, EncodeText(f, t).value)
    ensures var n := Written(f, t);
            n <= 6 && AllInRange(f, t, n) && |TextOf(f, t, n)| <= f.Size() && buf[..] == Splice(old(buf[..]), at, TextOf(f, t, n))
  {
    hide Splice, EncodeText, TextOf, Written, Field, InRange, Layout, AllInRange, Offset, Encodable;
    ghost var was: seq<byte> := buf[..];
    Offsets(f);
    WholeText(f, t);
    WrittenIs(f, t);
    NothingDone(was, at);
    NoText(f, t);
    st := InvalidDate;
    var ok := AddField(f, t, 0, buf, at, was);
    if !ok {
      return;
    }
    ok := AddField(f, t, 1, buf, at, was);
    if !ok {
      return;
    }
    ok := AddField(f, t, 2, buf, at, was);
    if !ok {
      return;
    }
    ok := AddField(f, t, 3, buf, at, was);
    if !ok {
      return;
    }
    ok := AddField(f, t, 4, buf, at, was);
    if !ok {
      return;
    }
    ok := AddField(f, t, 5, buf, at, was);
    if !ok {
      return;
    }
    st := Ok;
  }

  lemma NoText(f: DateFormat, t: Tm)
    requires f.IsText()
    ensures AllInRange(f, t, 0) && TextOf(f, t, 0) == []
  {
  }

  /** The number of fields written is the first not in range, or six. */
  lemma WrittenIs(f: DateFormat, t: Tm)
    ensures Written(f, t) <= 6 && AllInRange(f, t, Written(f, t))
    ensures forall k :: 0 <= k < 6 && AllInRange(f, t, k) && !InRange(f, t, k) ==> Written(f, t) == k
    ensures AllInRange(f, t, 6) ==> Written(f, t) == 6
    ensures Written(f, t) < 6 ==> !AllInRange(f, t, 6)
  {
  }

  /** One field and its separator, unless it is out of range. */
  method AddField(f: DateFormat, t: Tm, k: nat, buf: array<byte>, at: nat, ghost was: seq<byte>) returns (ok: bool)
    requires f.IsText() && k < 6 && at + f.Size() <= buf.Length == |was| && AllInRange(f, t, k)
    requires |TextOf(f, t, k)| <= f.Size() && buf[..] == Splice(was, at, TextOf(f, t, k))
    modifies buf
    ensures ok == InRange(f, t, k)
    ensures !ok ==> buf[..] == old(buf[..])
    ensures ok ==> AllInRange(f, t, k + 1) && |TextOf(f, t, k + 1)| <= f.Size() && buf[..] == Splice(was, at, TextOf(f, t, k + 1))
  {
    hide Splice, CellText, Layout, Field, TextOf, Offset, Pow10;
    ok := InRange(f, t, k);
    if !ok {
      return;
    }
    Offsets(f);
    FieldFits(f, t, k);
    TextStep(f, t, k + 1);
    ghost var done := TextOf(f, t, k);
    var pos := at + Offset(f, k);
    var end := PutCell(Layout(f)[k], Field(f, t, k), buf, pos);
    SpliceAppend(was, at, done, CellText(Layout(f)[k], Field(f, t, k)));
  }

  lemma NothingDone(was: seq<byte>, at: nat)
    requires at <= |was|
    ensures was == Splice(was, at, [])
  {
  }

  /** One number and its separator; the caller gives up when there is none. */
  method GetCell(c: Cell, buf: array<byte>, at: nat) returns (value: Option<nat>)
    requires at + c.width + |c.sep| <= buf.Length && c.width <= 9
    ensures value == if buf[at + c.width..at + c.width + |c.sep|] == c.sep then Parse(buf[at..at + c.width]) else None
  {
    value := StrToUint(buf, at, c.width);
    ShortFieldFits(buf[at..at + c.width]);
    if value.Some? && buf[at + c.width..at + c.width + |c.sep|] != c.sep {
      value := None;
    }
  }

  /** What reading the first cell of s leaves to do. */
  lemma ScanCell(cells: seq<Cell>, s: seq<byte>)
    requires cells != [] && cells[0].width + |cells[0].sep| <= |s|
    ensures var c, rest := cells[0], s[cells[0].width + |cells[0].sep|..];
            var v := if s[c.width..c.width + |c.sep|] == c.sep then Parse(s[..c.width]) else None;
            Scan(cells, s) == if v.None? || Scan(cells[1..], rest).None? then None
                              else Some([v.value] + Scan(cells[1..], rest).value)
  {
  }

  /** atcacert_date_dec_iso8601_sep, _rfc5280_utc and _rfc5280_gen. */
  method DecText(f: DateFormat, buf: array<byte>, at: nat) returns (st: Status, t: Tm)
    requires f.IsText() && at + f.Size() <= buf.Length
    ensures st == DecodeText(f, buf[at..at + f.Size()]).Code()
    ensures st.Ok? ==> DecodeText(f, buf[at..at + f.Size()]) == Success(t)
  {
    hide Scan, FromFields;
    t := Tm(0, 0, 0, 0, 0, 0);
    var values := NextSix(Layout(f), buf, at, at + f.Size());
    if values.None? {
      return DecodingError, t;
    }
    t := FromFields(f, values.value);
    st := Ok;
  }

  /** All six cells: date and time. */
  method NextSix(cells: seq<Cell>, buf: array<byte>, at: nat, end: nat) returns (values: Option<seq<nat>>)
    requires |cells| == 6 && (forall i :: 0 <= i < 6 ==> cells[i].width <= 9) && end <= buf.Length
    requires end == at + Width(cells[0]) + Width(cells[1]) + Width(cells[2])
                    + Width(cells[3]) + Width(cells[4]) + Width(cells[5])
    ensures values == Scan(cells, buf[at..end]) && (values.Some? ==> |values.value| == 6)
  {
    hide Scan;
    assert cells[0..] == cells;
    var date := NextThree(cells, 0, buf, at, end);
    if date.None? {
      return None;
    }
    var pos := at + Width(cells[0]) + Width(cells[1]) + Width(cells[2]);
    var time := NextThree(cells, 3, buf, pos, end);
    if time.None? {
      return None;
    }
    ScanNothing(cells[6..], buf[end..end]);
    assert time.value + [] == time.value;
    values := Some(date.value + time.value);
  }

  function Width(c: Cell): nat { c.width + |c.sep| }

  lemma ScanNothing(cells: seq<Cell>, s: seq<byte>)
    requires cells == []
    ensures Scan(cells, s) == Some([])
  {
  }

  /** Reads cell k, and says what that means for scanning the text from there on. */
  method NextCell(cells: seq<Cell>, k: nat, buf: array<byte>, at: nat, end: nat) returns (value: Option<nat>)
    requires k < |cells| && cells[k].width <= 9 && at + cells[k].width + |cells[k].sep| <= end <= buf.Length
    ensures var rest := Scan(cells[k + 1..], buf[at + cells[k].width + |cells[k].sep|..end]);
            Scan(cells[k..], buf[at..end]) == if value.None? || rest.None? then None else Some([value.value] + rest.value)
  {
    hide Scan, Parse;
    var c := cells[k];
    value := GetCell(c, buf, at);
    ghost var s: seq<byte> := buf[at..end];
    ScanCell(cells[k..], s);
    assert cells[k..][1..] == cells[k + 1..];
    SliceOfSlice(buf[..], at, end - at, 0, c.width);
    SliceOfSlice(buf[..], at, end - at, c.width, c.width + |c.sep|);
    SliceOfSlice(buf[..], at, end - at, c.width + |c.sep|, end - at);
  }

  /** Three cells in a row: the date, or the time. */
  method NextThree(cells: seq<Cell>, k: nat, buf: array<byte>, at: nat, end: nat) returns (values: Option<seq<nat>>)
    requires k + 3 <= |cells| && forall i :: k <= i < k + 3 ==> cells[i].width <= 9
    requires at + Width(cells[k]) + Width(cells[k + 1]) + Width(cells[k + 2]) <= end <= buf.Length
    ensures values.Some? ==> |values.value| == 3
    ensures var rest := Scan(cells[k + 3..], buf[at + Width(cells[k]) + Width(cells[k + 1]) + Width(cells[k + 2])..end]);
            Scan(cells[k..], buf[at..end]) == if values.None? || rest.None? then None else Some(values.value + rest.value)
  {
    hide Scan;
    var a := NextCell(cells, k, buf, at, end);
    if a.None? {
      return None;
    }
    var pos := at + Width(cells[k]);
    var b := NextCell(cells, k + 1, buf, pos, end);
    if b.None? {
      return None;
    }
    pos := pos + Width(cells[k + 1]);
    var c := NextCell(cells, k + 2, buf, pos, end);
    if c.None? {
      return None;
    }
    ghost var rest := Scan(cells[k + 3..], buf[pos + Width(cells[k + 2])..end]);
    if rest.Some? {
      assert [a.value] + ([b.value] + ([c.value] + rest.value)) == [a.value, b.value, c.value] + rest.value;
    }
    values := Some([a.value, b.value, c.value]);
  }

  // ----- all formats -----

  function EncodeDate(f: DateFormat, t: Tm): (r: Result<seq<byte>>)
    ensures r.Success? ==> |r.value| == f.Size()
  {
    if f.IsText() then EncodeText(f, t) else EncodePosix(t, f.PosixLe?)
  }

  function DecodeDate(f: DateFormat, s: seq<byte>): Result<Tm>
    requires |s| == f.Size()
  {
    if f.IsText() then DecodeText(f, s) else Success(DecodePosix(s, f.PosixLe?))
  }

  /** Dates survive a format exactly when it is a text format or they exist. */
  lemma DateRoundTrip(f: DateFormat, t: Tm)
    requires EncodeDate(f, t).Success?
    ensures DecodeDate(f, EncodeDate(f, t).value).Success?
    ensures DecodeDate(f, EncodeDate(f, t).value) == Success(t) <==> f.IsText() || IsCalendar(t)
  {
    hide EncodeText, DecodeText, EncodePosix, DecodePosix, IsCalendar;
    if f.IsText() {
      TextRoundTrip(f, t);
    } else {
      PosixRoundTrip(t, f.PosixLe?);
    }
  }

  /** atcacert_date_get_max_date. */
  function MaxDate(f: DateFormat): Tm {
    match f
    case Utc => Tm(59, 59, 23, 31, 11, 2049 - 1900)
    case PosixBe => LastSecond
    case PosixLe => LastSecond
    case _ => Tm(59, 59, 23, 31, 11, 9999 - 1900)
  }

  /** A certificate that never expires can state so in every format but the POSIX ones. */
  lemma MaxDateEncodes(f: DateFormat)
    ensures EncodeDate(f, MaxDate(f)).Success? <==> f.IsText()
  {
    LastSecondRefused(f.PosixLe?);
  }

  /** atcacert_date_enc; the caller's buffer is size octets from at, or null to ask for the size. */
  method EncDate(f: DateFormat, t: Tm, buf: array?<byte>, at: nat, size: nat) returns (st: Status, newSize: nat)
    requires buf != null ==> at + size <= buf.Length
    modifies if buf == null then {} else {buf}
    ensures newSize == f.Size()
    ensures buf == null ==> st == Ok
    ensures buf != null ==> st == if size < f.Size() then BufferTooSmall else EncodeDate(f, t).Code()
    ensures buf != null && st.Ok? ==> buf[..] == Splice(old(buf[..]), at, EncodeDate(f, t).value)
  {
    hide EncodeText, EncodePosix;
    newSize := f.Size();
    if buf != null && size < f.Size() {
      return BufferTooSmall, newSize;
    }
    if buf == null {
      return Ok, newSize;
    }
    if f.IsText() {
      st := EncText(f, t, buf, at);
    } else {
      st := EncPosix(t, f.PosixLe?, buf, at);
    }
  }

  /** atcacert_date_dec. */
  method DecDate(f: DateFormat, buf: array<byte>, at: nat, size: nat) returns (st: Status, t: Tm)
    requires at + size <= buf.Length
    ensures st == if size < f.Size() then DecodingError else DecodeDate(f, buf[at..at + f.Size()]).Code()
    ensures st.Ok? ==> DecodeDate(f, buf[at..at + f.Size()]) == Success(t)
  {
    hide DecodeText, DecodePosix;
    t := Tm(0, 0, 0, 0, 0, 0);
    if size < f.Size() {
      return DecodingError, t;
    }
    if f.IsText() {
      st, t := DecText(f, buf, at);
    } else {
      t := DecPosix(buf, at, f.PosixLe?);
      st := Ok;
    }
  }

  // ----- the packing of a compressed certificate: year 5, month 4, day 5, hour 5, validity 5 bits -----

  predicate Packable(t: Tm, years: nat) {
    100 <= t.year <= 131 && 0 <= t.mon <= 11 && 1 <= t.mday <= 31 && 0 <= t.hour <= 23 && years <= 31
  }

  function Pack(t: Tm, years: nat): (r: Result<seq<byte>>)
    ensures r.Success? ==> |r.value| == 3
  {
    if !Packable(t, years) then Failure(InvalidDate)
    else Success([(t.year - 100) * 8 + (t.mon + 1) / 2,
                  (t.mon + 1) % 2 * 0x80 + t.mday * 4 + t.hour / 8,
                  t.hour % 8 * 0x20 + years])
  }

  /** The issue date, to the hour, and the years of validity. */
  function Unpack(b: seq<byte>): (Tm, nat)
    requires |b| == 3
  {
    var month: int := b[0] % 8 * 2 + b[1] / 0x80;
    (Tm(0, 0, b[1] % 4 * 8 + b[2] / 0x20, b[1] % 0x80 / 4, month - 1, b[0] / 8 + 100), b[2] % 0x20)
  }

  /** The expiry date the issue date and the validity stand for; no validity means the format's last date. */
  function Expiry(f: DateFormat, issue: Tm, years: nat): Tm {
    if years != 0 then Tm(0, 0, issue.hour, issue.mday, issue.mon, issue.year + years) else MaxDate(f)
  }

  /** Unpacking undoes packing up to the minutes and seconds, which are dropped. */
  lemma UnpackPack(t: Tm, years: nat)
    requires Pack(t, years).Success?
    ensures Unpack(Pack(t, years).value) == (t.(min := 0, sec := 0), years)
  {
    PackMonth(t.mon + 1, t.year - 100);
    PackDay(t.mon + 1, t.mday, t.hour);
    PackHour(t.hour, years);
  }

  lemma PackMonth(m: nat, y: nat)
    requires m <= 15 && y <= 31
    ensures (y * 8 + m / 2) / 8 == y && (y * 8 + m / 2) % 8 * 2 + m % 2 == m
  {
  }

  lemma PackDay(m: nat, d: nat, h: nat)
    requires d <= 31 && h <= 31
    ensures var b := m % 2 * 0x80 + d * 4 + h / 8; b / 0x80 == m % 2 && b % 0x80 / 4 == d && b % 4 == h / 8
  {
  }

  lemma PackHour(h: nat, years: nat)
    requires h <= 31 && years <= 31
    ensures var b := h % 8 * 0x20 + years; b / 0x20 == h % 8 && b % 0x20 == years
  {
  }

  /** Packing undoes unpacking exactly on octets whose month, day and hour are in range. */
  lemma PackUnpack(b: seq<byte>)
    requires |b| == 3
    ensures var (t, years) := Unpack(b);
            Pack(t, years) == if 0 <= t.mon <= 11 && 1 <= t.mday && t.hour <= 23 then Success(b) else Failure(InvalidDate)
  {
    var (t, years) := Unpack(b);
    assert b[0] % 8 * 2 + b[1] / 0x80 == t.mon + 1;
    assert (t.mon + 1) / 2 == b[0] % 8 && (t.mon + 1) % 2 == b[1] / 0x80;
    assert b[1] == b[1] / 0x80 * 0x80 + b[1] % 0x80 && b[1] % 0x80 == b[1] % 0x80 / 4 * 4 + b[1] % 4;
    assert t.hour / 8 == b[1] % 4 && t.hour % 8 == b[2] / 0x20;
    if Packable(t, years) {
      assert Pack(t, years).value == b;
    }
  }
}
