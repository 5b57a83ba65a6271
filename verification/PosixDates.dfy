/** The two POSIX date formats: a 32-bit count of seconds, in either byte order. */
module PosixDates {
  import opened Bytes
  import opened BigEndian
  import opened DerLength
  import opened PosixTime

  /** One second before the last date a 32-bit count can name: the encoder stops there. */
  const LastEncodable: Tm := LastSecond.(sec := 14)

  /** The range checks of atcacert_date_enc_posix_uint32. */
  predicate PosixEncodable(t: Tm) {
    && 70 <= t.year <= 206 && 0 <= t.mon <= 11 && 1 <= t.mday <= 31
    && 0 <= t.hour <= 23 && 0 <= t.min <= 59 && 0 <= t.sec <= 59
    && !Before(LastEncodable, t)
  }

  function Reversed(s: seq<byte>): (r: seq<byte>)
    ensures |r| == |s| && forall i :: 0 <= i < |s| ==> r[i] == s[|s| - 1 - i]
  {
    if s == [] then [] else Reversed(s[1..]) + [s[0]]
  }

  function EncodePosix(t: Tm, little: bool): (r: Result<seq<byte>>)
    ensures r.Success? ==> |r.value| == 4
  {
    if !PosixEncodable(t) then Failure(InvalidDate)
    else
      var octets := Octets(Seconds(t) % U32, 4);
      Success(if little then Reversed(octets) else octets)
  }

  function DecodePosix(s: seq<byte>, little: bool): Tm {
    Gmtime(Value(if little then Reversed(s) else s))
  }

  /** Whatever the encoder accepts fits 32 bits, even a day the month does not have. */
  lemma EncodableFits(t: Tm)
    requires PosixEncodable(t)
    ensures 0 <= Seconds(t) < U32
  {
    hide YearStart, MonthStart, MonthSecs, YearSecs;
    PosixFormula(2106);
    MonthSteps(2106);
    if t.year == 206 {
      EarlyMonths(2106);
    } else {
      YearStartMonotone(t.year + 1900, 2106);
      EndOfMonth(t.year + 1900, t.mon);
    }
  }

  lemma EarlyMonths(year: int)
    ensures MonthStart(year, 1) == 2678400
  {
  }

  /** Thirty-one days from the start of any month stay within the year. */
  lemma EndOfMonth(year: int, mon: nat)
    requires mon < 12
    ensures MonthStart(year, mon) + 31 * 86400 <= YearSecs(year)
  {
    MonthsOfYear(year);
    hide MonthStart, YearSecs, IsLeap;
    if mon == 11 {
      MonthSteps(year);
    } else {
      MonthStartMonotone(year, mon, 10);
      MonthSteps(year);
      assert MonthStart(year, 12) == MonthStart(year, 10) + MonthSecs(year, 10) + MonthSecs(year, 11);
    }
  }

  lemma ReversedTwice(s: seq<byte>)
    ensures Reversed(Reversed(s)) == s
  {
  }

  /** The formats lose nothing exactly on dates that exist; 31 April comes back as 1 May. */
  lemma PosixRoundTrip(t: Tm, little: bool)
    requires EncodePosix(t, little).Success?
    ensures IsCalendar(DecodePosix(EncodePosix(t, little).value, little))
    ensures DecodePosix(EncodePosix(t, little).value, little) == t <==> IsCalendar(t)
  {
    hide IsCalendar, Seconds, Gmtime, PosixEncodable;
    var n := Seconds(t);
    EncodableFits(t);
    OctetCountOfWord(n);
    ValueOfOctets(n, 4);
    ReversedTwice(Octets(n, 4));
    GmtimeSound(n);
    if IsCalendar(t) {
      CalendarRoundTrip(t);
    }
  }

  /** A day its month does not have comes back in the next month, but never in another year. */
  lemma DecodedYear(t: Tm, little: bool)
    requires EncodePosix(t, little).Success?
    ensures DecodePosix(EncodePosix(t, little).value, little).year == t.year
  {
    hide IsCalendar, Octets, Value, Gmtime, Reversed, PosixEncodable;
    var n := Seconds(t);
    EncodableFits(t);
    OctetCountOfWord(n);
    ValueOfOctets(n, 4);
    ReversedTwice(Octets(n, 4));
    GmtimeSound(n);
    SameYear(t, Gmtime(n));
  }

  lemma SameYear(t: Tm, got: Tm)
    requires PosixEncodable(t) && IsCalendar(got) && Seconds(got) == Seconds(t)
    ensures got.year == t.year
  {
    hide YearStart, MonthStart, YearSecs, MonthSecs, IsCalendar;
    var y, z := t.year + 1900, got.year + 1900;
    WithinMonth(got);
    EndOfMonth(y, t.mon);
    MonthStartMonotone(y, 0, t.mon);
    MonthStartMonotone(z, 0, got.mon);
    MonthSteps(y);
    MonthSteps(z);
    if y < z {
      YearStartMonotone(y, z);
    } else if z < y {
      YearStartMonotone(z, y);
    }
  }

  /** The last date the decoder can produce is refused by the encoder. */
  lemma LastSecondRefused(little: bool)
    ensures IsCalendar(LastSecond) && Seconds(LastSecond) == U32 - 1
    ensures EncodePosix(LastSecond, little) == Failure(InvalidDate)
  {
    LastSecondCount();
  }

  /** atcacert_date_enc_posix_uint32. */
  method EncPosixCount(t: Tm) returns (st: Status, posix: nat)
    ensures st == if PosixEncodable(t) then Ok else InvalidDate
    ensures st.Ok? ==> posix == Seconds(t) % U32
  {
    hide Seconds;
    posix := 0;
    var year := t.year + 1900;
    if year > 2106 || year < 1970 { return InvalidDate, 0; }
    if t.mon < 0 || t.mon > 11 { return InvalidDate, 0; }
    if t.mday < 1 || t.mday > 31 { return InvalidDate, 0; }
    if t.hour < 0 || t.hour > 23 { return InvalidDate, 0; }
    if t.min < 0 || t.min > 59 { return InvalidDate, 0; }
    if t.sec < 0 || t.sec > 59 { return InvalidDate, 0; }
    if year == 2106 {
      if t.mon > 1 { return InvalidDate, 0; }
      if t.mon == 1 {
        if t.mday > 7 { return InvalidDate, 0; }
        if t.mday == 7 {
          if t.hour > 6 { return InvalidDate, 0; }
          if t.hour == 6 {
            if t.min > 28 { return InvalidDate, 0; }
            if t.min == 28 {
              if t.sec > 14 { return InvalidDate, 0; }
            }
          }
        }
      }
    }
    posix := Mkgmtime32(t);
    st := Ok;
  }

  /** atcacert_date_enc_posix_uint32_be and _le. */
  method EncPosix(t: Tm, little: bool, buf: array<byte>, at: nat) returns (st: Status)
    requires at + 4 <= buf.Length
    modifies buf
    ensures st == EncodePosix(t, little).Code()
    ensures buf[..] == if st.Ok? then Splice(old(buf[..]), at, EncodePosix(t, little).value) else old(buf[..])
  {
    hide PosixEncodable, Seconds, Octets;
    var posix;
    st, posix := EncPosixCount(t);
    if st != Ok {
      return;
    }
    FourOctets(posix);
    var o := [posix / 0x100_0000 % 0x100, posix / 0x1_0000 % 0x100, posix / 0x100 % 0x100, posix % 0x100];
    if little {
      buf[at], buf[at + 1], buf[at + 2], buf[at + 3] := o[3], o[2], o[1], o[0];
    } else {
      buf[at], buf[at + 1], buf[at + 2], buf[at + 3] := o[0], o[1], o[2], o[3];
    }
  }

  lemma FourOctets(n: nat)
    ensures Octets(n, 4) == [n / 0x100_0000 % 0x100, n / 0x1_0000 % 0x100, n / 0x100 % 0x100, n % 0x100]
  {
    assert n / 0x100 / 0x100 == n / 0x1_0000 && n / 0x1_0000 / 0x100 == n / 0x100_0000;
    assert Octets(n, 4) == Octets(n / 0x100, 3) + [n % 0x100];
    assert Octets(n / 0x100, 3) == Octets(n / 0x1_0000, 2) + [n / 0x100 % 0x100];
    assert Octets(n / 0x1_0000, 2) == Octets(n / 0x100_0000, 1) + [n / 0x1_0000 % 0x100];
  }

  /** Four octets shifted into place. */
  function Word(a: int, b: int, c: int, d: int): int {
    a * 0x100_0000 + b * 0x1_0000 + c * 0x100 + d
  }

  lemma ValueOfFour(s: seq<byte>)
    requires |s| == 4
    ensures Value(s) == Word(s[0], s[1], s[2], s[3])
  {
    assert s[..3][..2] == s[..2] && s[..2][..1] == s[..1];
    assert Value(s[..1]) == s[0] by { assert s[..1][..0] == []; }
    assert Value(s[..2]) == Word(0, 0, s[0], s[1]);
    assert Value(s[..3]) == Value(s[..2]) * 0x100 + s[2];
  }

  /** atcacert_date_dec_posix_uint32_be and _le. */
  method DecPosix(buf: array<byte>, at: nat, little: bool) returns (t: Tm)
    requires at + 4 <= buf.Length
    ensures t == DecodePosix(buf[at..at + 4], little)
  {
    ghost var s: seq<byte> := buf[at..at + 4];
    ValueOfFour(s);
    ValueOfFour(Reversed(s));
    hide Value, Gmtime;
    var posix := if little then Word(buf[at + 3], buf[at + 2], buf[at + 1], buf[at])
                 else Word(buf[at], buf[at + 1], buf[at + 2], buf[at + 3]);
    t := Gmtime32(posix);
  }
}
