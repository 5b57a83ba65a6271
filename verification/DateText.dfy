/** Decimal fields of a date: uint_to_str and str_to_uint of src/cryptoauthlib/lib/atcacert/atcacert_date.c. */
module DateText {
  import opened Bytes

  const ZERO: byte := 0x30

  /** num in exactly width decimal digits. */
  function Digits(num: nat, width: nat): (s: seq<byte>)
    ensures |s| == width
  {
    if width == 0 then [] else Digits(num / 10, width - 1) + [ZERO + num % 10]
  }

  function Pow10(width: nat): (p: nat)
    ensures p > 0
  {
    if width == 0 then 1 else Pow10(width - 1) * 10
  }

  /** The number a string of digits stands for, if it is one. */
  function Parse(s: seq<byte>): Option<nat> {
    if s == [] then Some(0)
    else if !IsDigit(s[0]) then None
    else
      match Parse(s[1..])
      case None => None
      case Some(n) => Some(n + Pow10(|s| - 1) * (s[0] - ZERO))
  }

  lemma Tens(d: int, p: int, n: int)
    ensures 10 * (n + p * d) == 10 * n + p * 10 * d
  {
  }

  lemma {:induction false} ParseLast(s: seq<byte>, c: byte)
    requires Parse(s).Some? && IsDigit(c)
    ensures Parse(s + [c]) == Some(10 * Parse(s).value + (c - ZERO))
  {
    if s == [] {
      assert s + [c] == [c] && [c][1..] == [];
      assert Parse([c]) == Some(0 + Pow10(0) * (c - ZERO));
    } else {
      assert (s + [c])[1..] == s[1..] + [c];
      ParseLast(s[1..], c);
      Tens(s[0] - ZERO, Pow10(|s| - 1), Parse(s[1..]).value);
    }
  }

  /** Parsing undoes printing for every number that fits the width. */
  lemma {:induction false} ParseDigits(num: nat, width: nat)
    requires num < Pow10(width)
    ensures Parse(Digits(num, width)) == Some(num)
  {
    if width > 0 {
      ParseDigits(num / 10, width - 1);
      ParseLast(Digits(num / 10, width - 1), ZERO + num % 10);
    }
  }

  lemma {:induction false} DigitsOfZero(width: nat)
    ensures forall i :: 0 <= i < width ==> Digits(0, width)[i] == ZERO
  {
    if width > 0 {
      DigitsOfZero(width - 1);
    }
  }

  lemma ParseFront(s: seq<byte>, n: nat)
    requires s != [] && IsDigit(s[0]) && Parse(s[1..]) == Some(n)
    ensures Parse(s) == Some(n + Pow10(|s| - 1) * (s[0] - ZERO))
    ensures Pow10(|s|) == Pow10(|s| - 1) * 10
  {
  }

  lemma StartParse()
    ensures Parse([]) == Some(0) && Pow10(0) == 1
  {
  }

  /** uint_to_str: returns the position after the field. */
  method UintToStr(num: nat, width: nat, buf: array<byte>, at: nat) returns (end: nat)
    requires num < Pow10(width) && at + width <= buf.Length
    modifies buf
    ensures end == at + width
    ensures buf[..] == Splice(old(buf[..]), at, Digits(num, width))
  {
    end := at + width;
    for i := 0 to width
      invariant forall j :: 0 <= j < buf.Length ==> buf[j] == if at <= j < at + i then ZERO else old(buf[j])
    {
      buf[at + i] := ZERO;
    }
    var rest: nat, pos: nat := num, end;
    ghost var tail: seq<byte> := [];
    while rest != 0
      invariant at <= pos <= end && |tail| == end - pos
      invariant rest < Pow10(pos - at)
      invariant Digits(num, width) == Digits(rest, pos - at) + tail
      invariant forall j :: 0 <= j < buf.Length ==>
                  buf[j] == if at <= j < pos then ZERO else if pos <= j < end then tail[j - pos] else old(buf[j])
      decreases rest
    {
      pos := pos - 1;
      buf[pos] := ZERO + rest % 10;
      tail := [ZERO + rest % 10] + tail;
      rest := rest / 10;
    }
    DigitsOfZero(pos - at);
  }

  /** The number, if there is one and it fits 32 bits. */
  function Fit32(n: Option<nat>): Option<nat> {
    if n.Some? && n.value < U32 then n else None
  }

  /** What str_to_uint reads: the last eleven characters of a longer field. */
  function Tail11(s: seq<byte>): (t: seq<byte>)
    ensures |t| <= 11
  {
    if |s| > 11 then s[|s| - 11..] else s
  }

  predicate AllZeros(s: seq<byte>) {
    forall i :: 0 <= i < |s| ==> s[i] == ZERO
  }

  /**
   * When str_to_uint is right about a field of any width: exactly when the field has at most eleven
   * characters, or is refused, or has nothing but zeros in front of the last eleven. Its loop stops moving
   * at the eleventh character from the right, and checks that one again for each further digit.
   */
  lemma StrToUintIff(s: seq<byte>)
    ensures Fit32(Parse(Tail11(s))) == Fit32(Parse(s))
            <==> |s| <= 11 || Fit32(Parse(Tail11(s))) == None || AllZeros(s[..|s| - 11])
  {
    hide Parse;
    if |s| > 11 {
      LongField(s[..|s| - 11], Tail11(s));
      assert s == s[..|s| - 11] + Tail11(s);
    }
  }

  lemma LongField(front: seq<byte>, tail: seq<byte>)
    requires |tail| == 11
    ensures Fit32(Parse(tail)) == Fit32(Parse(front + tail)) <==> Fit32(Parse(tail)) == None || AllZeros(front)
  {
    hide Parse, Pow10, AllZeros;
    ParsePrefixed(front, tail);
    if Parse(front).Some? && Parse(tail).Some? {
      ParseSplit(front, tail);
      ElevenDigits(Parse(front).value);
      ZeroIsZeros(front);
    } else if AllZeros(front) {
      ZeroIsZeros(front);
    }
  }

  lemma ElevenDigits(n: nat)
    ensures n > 0 ==> n * Pow10(11) > U32
    ensures 0 * Pow10(11) == 0
  {
    hide Pow10;
    Pow10Grows(11);
    var p := Pow10(11);
    assert n > 0 ==> n * p >= p;
  }

  lemma {:induction false} ParsePrefixed(front: seq<byte>, tail: seq<byte>)
    ensures Parse(front + tail).Some? <==> Parse(front).Some? && Parse(tail).Some?
  {
    if front == [] {
      assert front + tail == tail;
    } else {
      assert (front + tail)[1..] == front[1..] + tail;
      ParsePrefixed(front[1..], tail);
    }
  }

  lemma {:induction false} ParseSplit(front: seq<byte>, tail: seq<byte>)
    requires Parse(front).Some? && Parse(tail).Some? && Parse(front + tail).Some?
    ensures Parse(front + tail).value == Parse(front).value * Pow10(|tail|) + Parse(tail).value
  {
    if front == [] {
      assert front + tail == tail;
    } else {
      var rest := front[1..];
      assert (front + tail)[1..] == rest + tail;
      ParseSplit(rest, tail);
      Pow10Sum(|rest|, |tail|);
      var d: int := front[0] - ZERO;
      Spread(Parse(rest).value, Pow10(|rest|), d, Pow10(|tail|));
    }
  }

  lemma Spread(n: int, p: int, d: int, q: int)
    ensures (n + p * d) * q == n * q + p * q * d
  {
  }

  lemma {:induction false} Pow10Sum(m: nat, n: nat)
    ensures Pow10(m + n) == Pow10(m) * Pow10(n)
  {
    if m > 0 {
      Pow10Sum(m - 1, n);
    }
  }

  lemma {:induction false} ZeroIsZeros(s: seq<byte>)
    ensures Parse(s) == Some(0) <==> AllZeros(s)
  {
    if s != [] {
      ZeroIsZeros(s[1..]);
      assert s == [s[0]] + s[1..];
      assert AllZeros(s) <==> s[0] == ZERO && AllZeros(s[1..]);
      FrontDigit(s);
    }
  }

  lemma FrontDigit(s: seq<byte>)
    requires s != []
    ensures Parse(s) == Some(0) <==> s[0] == ZERO && Parse(s[1..]) == Some(0)
  {
    hide Pow10;
    var p, d: int := Pow10(|s| - 1), s[0] - ZERO;
    assert d > 0 ==> p * d > 0;
    assert p * 0 == 0;
  }

  lemma {:induction false} Pow10Grows(n: nat)
    requires n >= 10
    ensures Pow10(n) > U32
  {
    if n > 10 {
      Pow10Grows(n - 1);
    } else {
      TenPowers();
    }
  }

  lemma TenPowers()
    ensures Pow10(9) == 1_000_000_000 && Pow10(10) == 10_000_000_000
  {
    assert Pow10(3) == 1000;
    assert Pow10(6) == 1000_000;
  }

  /** A number is at least what its last digits say. */
  lemma TooLarge(t: seq<byte>, k: nat)
    requires k <= |t| && Fit32(Parse(t[k..])) == None
    ensures Fit32(Parse(t)) == None
  {
    hide Parse, Pow10;
    var front, tail := t[..k], t[k..];
    assert t == front + tail;
    ParsePrefixed(front, tail);
    if Parse(t).Some? {
      ParseSplit(front, tail);
      assert Parse(front).value * Pow10(|tail|) >= 0;
    }
  }

  /** One digit more on the left: the checks refuse exactly what no longer fits. */
  lemma OneDigit(t: seq<byte>, digit: nat, sum: nat, unit: nat)
    requires digit < |t| && digit <= 9 && IsDigit(t[|t| - 1 - digit])
    requires Parse(t[|t| - digit..]) == Some(sum) && sum < U32 && unit == Pow10(digit)
    ensures var d: int := t[|t| - 1 - digit] - ZERO;
            var next := (sum + unit * d) % U32;
            && (if (digit == 9 && d > 4) || next < sum then Fit32(Parse(t)) == None
                else Parse(t[|t| - 1 - digit..]) == Some(next))
            && (digit < 9 ==> unit * 10 % U32 == Pow10(digit + 1))
  {
    hide Parse, Pow10;
    var k := |t| - 1 - digit;
    var d: int := t[k] - ZERO;
    assert t[k..][1..] == t[k + 1..];
    ParseFront(t[k..], sum);
    ParseBound(t[k + 1..]);
    UnitBound(digit);
    if Fit32(Parse(t[k..])) == None {
      TooLarge(t, k);
    }
    Products(unit, d, digit);
  }

  lemma Products(unit: nat, d: nat, digit: nat)
    requires d <= 9 && digit <= 9 && unit <= 1_000_000_000 && (digit < 9 ==> unit <= 100_000_000)
    requires digit == 9 ==> unit == 1_000_000_000
    ensures d <= 4 || digit < 9 ==> unit * d <= 4_000_000_000
    ensures digit == 9 && d > 4 ==> unit * d >= 5_000_000_000
  {
  }

  lemma UnitBound(digit: nat)
    requires digit <= 9
    ensures Pow10(digit) <= 1_000_000_000 && (digit < 9 ==> Pow10(digit) <= 100_000_000 && Pow10(digit + 1) == Pow10(digit) * 10)
    ensures digit == 9 ==> Pow10(digit) == 1_000_000_000
  {
    TenPowers();
    Pow10Monotone(digit, 9);
    if digit < 9 {
      Pow10Monotone(digit, 8);
    }
  }

  lemma {:induction false} Pow10Monotone(m: nat, n: nat)
    requires m <= n
    ensures Pow10(m) <= Pow10(n)
  {
    if m < n {
      Pow10Monotone(m, n - 1);
    }
  }

  lemma {:induction false} ParseBound(s: seq<byte>)
    ensures Parse(s).Some? ==> Parse(s).value < Pow10(|s|)
  {
    if s != [] {
      ParseBound(s[1..]);
      var p, d: int := Pow10(|s| - 1), s[0] - ZERO;
      assert 0 <= d <= 9 ==> p * d <= p * 9;
    }
  }

  lemma EleventhDigit(t: seq<byte>, sum: nat)
    requires |t| == 11 && Parse(t[1..]) == Some(sum) && IsDigit(t[0])
    ensures if t[0] == ZERO then Parse(t) == Some(sum) else Fit32(Parse(t)) == None
  {
    hide Pow10;
    TenPowers();
    var d: int := t[0] - ZERO;
    assert Pow10(10) * d >= 0 && (d > 0 ==> Pow10(10) * d >= Pow10(10));
    assert Pow10(10) * 0 == 0;
  }

  /** A field of at most nine characters is read as the number it is. */
  lemma ShortFieldFits(s: seq<byte>)
    requires |s| <= 9
    ensures Fit32(Parse(Tail11(s))) == Parse(s)
  {
    hide Parse, Pow10;
    ParseBound(s);
    UnitBound(|s|);
  }

  lemma TailIs(s: seq<byte>)
    ensures var t := Tail11(s);
            |t| == (if |s| > 11 then 11 else |s|) && forall j :: 0 <= j < |t| ==> t[j] == s[|s| - |t| + j]
  {
  }

  lemma FitNone()
    ensures Fit32(None) == None
  {
  }

  lemma FitSome(n: nat)
    requires n < U32
    ensures Fit32(Some(n)) == Some(n)
  {
  }

  /** str_to_uint, for fields of any width. */
  method StrToUint(buf: array<byte>, at: nat, width: nat) returns (num: Option<nat>)
    requires at + width <= buf.Length
    ensures num == Fit32(Parse(Tail11(buf[at..at + width])))
  {
    hide Pow10, Parse, Tail11, Fit32;
    ghost var s: seq<byte> := buf[at..at + width];
    ghost var t := Tail11(s);
    TailIs(s);
    StartParse();
    var sum: nat, digitValue: nat, pos: int, digit: nat := 0, 1, width - 1, 0;
    assert t[|t|..] == [];
    while digit < width
      invariant digit <= width && sum < U32
      invariant digit <= 10 ==> pos == width - 1 - digit && Parse(t[|t| - digit..]) == Some(sum)
      invariant digit < 10 ==> digitValue == Pow10(digit)
      invariant digit > 10 ==> pos == width - 11 && t[0] == ZERO && Parse(t) == Some(sum)
    {
      assert buf[at + pos] == s[pos] && t[pos - (width - |t|)] == s[pos];
      if !IsDigit(buf[at + pos]) {
        NotANumber(t, pos - (width - |t|));
        FitNone();
        return None;
      }
      if digit >= 10 {
        if digit == 10 {
          EleventhDigit(t, sum);
        }
        if buf[at + pos] != ZERO {
          return None;
        }
        digit := digit + 1;
        continue;
      }
      OneDigit(t, digit, sum, digitValue);
      if digit == 9 && buf[at + pos] > ZERO + 4 {
        return None;
      }
      var next := (sum + digitValue * (buf[at + pos] - ZERO)) % U32;
      if next < sum {
        return None;
      }
      sum := next;
      digitValue := digitValue * 10 % U32;
      pos := pos - 1;
      digit := digit + 1;
    }
    assert |t| <= 10 ==> t[|t| - digit..] == t;
    FitSome(sum);
    num := Some(sum);
  }

  lemma {:induction false} NotANumber(s: seq<byte>, k: nat)
    requires k < |s| && !IsDigit(s[k])
    ensures Parse(s) == None
  {
    if k > 0 {
      NotANumber(s[1..], k - 1);
    }
  }
}
