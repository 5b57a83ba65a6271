/**
 * DER length fields (ITU-T X.690 sections 8.1.3 and 10.1): the encoder, the decoder and the
 * in-place adjustment of src/cryptoauthlib/lib/atcacert/atcacert_der.c. A C pointer is a buffer
 * together with an offset; an in/out size is an argument and a result.
 */
module DerLength {
  import opened Bytes
  import opened BigEndian

  type uint32 = n: int | 0 <= n < U32

  /** The definite form of a length, in the fewest octets. */
  function LengthOctets(n: uint32): (s: seq<byte>)
    ensures 1 <= |s| <= 5
  {
    if n < 0x80 then [n] else OctetCountOfWord(n); [0x80 + OctetCount(n)] + Octets(n, OctetCount(n))
  }

  /** What a decoder reads from the front of s: the length, and how many octets it took. */
  function DecodeLength(s: seq<byte>): (r: Result<(nat, nat)>)
    ensures r.Success? ==> 1 <= r.value.1 <= |s| && r.value.1 <= 5 && r.value.0 < U32
    ensures r.Failure? ==> r.error == DecodingError
  {
    if |s| < 1 then Failure(DecodingError)
    else if s[0] < 0x80 then Success((s[0], 1))
    else
      var k := s[0] - 0x80;
      if |s| < k + 1 || k == 0 || k > 4 then Failure(DecodingError)
      else ValueOfWord(s[1..k + 1]); Success((Value(s[1..k + 1]), k + 1))
  }

  lemma OctetCountOfWord(n: uint32)
    ensures OctetCount(n) <= 4
    ensures n > 0 ==> OctetCount(n) >= 1
  {
    assert OctetCount(n / 0x100 / 0x100 / 0x100 / 0x100) == 0;
    assert OctetCount(n / 0x100 / 0x100 / 0x100) <= 1;
    assert OctetCount(n / 0x100 / 0x100) <= 2;
  }

  lemma ValueOfWord(s: seq<byte>)
    requires |s| <= 4
    ensures Value(s) < U32
  {
    ValueBound(s);
    assert Pow256(2) == 0x1_0000;
    assert Pow256(3) == 0x100_0000;
    assert Pow256(4) == U32;
  }

  /** Decoding undoes encoding, whatever follows the field. */
  lemma LengthRoundTrip(n: uint32, rest: seq<byte>)
    ensures DecodeLength(LengthOctets(n) + rest) == Success((n, |LengthOctets(n)|))
  {
    var s := LengthOctets(n) + rest;
    if n >= 0x80 {
      OctetCountOfWord(n);
      ValueOfOctets(n, OctetCount(n));
      assert s[1..OctetCount(n) + 1] == Octets(n, OctetCount(n));
    }
  }

  /** No field that decodes to n is shorter than the one the encoder writes (X.690 section 10.1). */
  lemma LengthIsShortest(s: seq<byte>)
    requires DecodeLength(s).Success?
    ensures |LengthOctets(DecodeLength(s).value.0)| <= DecodeLength(s).value.1
  {
    if s[0] >= 0x80 {
      OctetCountOfValue(s[1..s[0] - 0x80 + 1]);
    }
  }

  /** A field as short as the encoder's is the encoder's: the shortest form is unique. */
  lemma ShortestLengthIsCanonical(s: seq<byte>)
    requires DecodeLength(s).Success?
    requires |LengthOctets(DecodeLength(s).value.0)| == DecodeLength(s).value.1
    ensures s[..DecodeLength(s).value.1] == LengthOctets(DecodeLength(s).value.0)
  {
    hide Octets, OctetCount, Value;
    assert s[..1] == [s[0]];
    if s[0] >= 0x80 {
      var k := s[0] - 0x80;
      OctetsOfValue(s[1..k + 1]);
      assert OctetCount(Value(s[1..k + 1])) == k;
      assert s[..k + 1] == [s[0]] + s[1..k + 1];
    }
  }

  /** Longer lengths never have shorter fields. */
  lemma {:induction false} OctetCountMonotone(m: nat, n: nat)
    requires m <= n
    ensures OctetCount(m) <= OctetCount(n)
  {
    if m > 0 {
      OctetCountMonotone(m / 0x100, n / 0x100);
    }
  }

  lemma FieldWidth(n: uint32)
    ensures |LengthOctets(n)| == if n < 0x80 then 1 else 1 + OctetCount(n)
  {
  }

  lemma FieldWidthMonotone(m: uint32, n: uint32)
    requires m <= n
    ensures |LengthOctets(m)| <= |LengthOctets(n)|
  {
    OctetCountMonotone(m, n);
    if n >= 0x80 {
      OctetCountOfWord(n);
    }
  }

  function Unit(exp: nat): (u: nat)
    requires exp < 4
    ensures u > 0
  {
    match exp case 0 => 1 case 1 => 0x100 case 2 => 0x1_0000 case 3 => 0x100_0000
  }

  lemma UnitIsPower(exp: nat)
    requires exp < 4
    ensures Unit(exp) == Pow256(exp)
  {
    assert Pow256(2) == 0x1_0000;
  }

  /** atcacert_der_enc_length; out is null when the caller only wants the size. */
  method EncLength(length: uint32, out: array?<byte>, at: nat, size: nat) returns (st: Status, newSize: nat)
    requires out != null ==> at + size <= out.Length
    modifies if out == null then {} else {out}
    ensures newSize == |LengthOctets(length)|
    ensures st == if out != null && size < newSize then BufferTooSmall else Ok
    ensures out != null ==> out[..] == if st.Ok? then Splice(old(out[..]), at, LengthOctets(length)) else old(out[..])
  {
    hide OctetCount, Octets, Splice, LengthOctets;
    var exp := 0;
    newSize := 1;
    FieldWidth(length);
    if length >= 0x80 {
      exp := LeadingUnit(length);
      newSize := 2 + exp;
    }
    if out != null && size < newSize {
      return BufferTooSmall, newSize;
    }
    if out == null {
      return Ok, newSize;
    }
    ghost var was: seq<byte> := out[..];
    PutOctets(length, exp, out, at + newSize - 1 - exp);
    if newSize > 1 {
      out[at] := 0x80 + (newSize - 1);
      assert out[at..at + newSize] == [0x80 + (newSize - 1)] + out[at + 1..at + newSize];
    }
    FieldIs(length, exp + 1);
    assert out[at..at + newSize] == LengthOctets(length);
    SpliceIs(was, at, LengthOctets(length), out[..]);
    st := Ok;
  }

  lemma FieldIs(n: uint32, k: nat)
    requires if n < 0x80 then k == 1 else k == OctetCount(n)
    ensures LengthOctets(n) == (if n < 0x80 then [] else [0x80 + k]) + Octets(n, k)
  {
    if n < 0x80 {
      assert Octets(n / 0x100, 0) == [];
      assert [] + Octets(n, 1) == Octets(n, 1);
    }
  }

  /** The loop at line 55: the highest octet that is not zero. */
  method LeadingUnit(length: uint32) returns (exp: nat)
    requires length > 0
    ensures exp < 4 && OctetCount(length) == exp + 1
  {
    exp := 3;
    while length / Unit(exp) == 0
      invariant 0 <= exp <= 3
      invariant exp < 3 ==> length / Unit(exp + 1) == 0
      decreases exp
    {
      exp := exp - 1;
    }
    OctetCountByUnit(length, exp);
  }

  /** The loop at line 75: the octets of the length from the highest on. */
  method PutOctets(length: uint32, top: nat, out: array<byte>, at: nat)
    requires top < 4 && at + top + 1 <= out.Length
    modifies out
    ensures out[at..at + top + 1] == Octets(length, top + 1)
    ensures forall i :: 0 <= i < out.Length && !(at <= i < at + top + 1) ==> out[i] == old(out[i])
  {
    hide Octets, Unit;
    ghost var octets := Octets(length, top + 1);
    var exp: int := top;
    while exp >= 0
      invariant -1 <= exp <= top && out[at..at + top - exp] == octets[..top - exp]
      invariant forall i :: 0 <= i < out.Length && !(at <= i < at + top - exp) ==> out[i] == old(out[i])
    {
      OctetAt(length, top + 1, top - exp);
      out[at + top - exp] := length / Unit(exp) % 0x100;
      exp := exp - 1;
    }
  }

  lemma OctetAt(n: uint32, k: nat, i: nat)
    requires i < k <= 4
    ensures Octets(n, k)[i] == n / Unit(k - 1 - i) % 0x100
  {
    hide Octets, Unit;
    OctetsByUnit(n, k);
  }

  lemma OctetCountByUnit(n: uint32, exp: nat)
    requires exp < 4 && n / Unit(exp) > 0 && (exp < 3 ==> n / Unit(exp + 1) == 0)
    ensures OctetCount(n) == exp + 1
  {
    OctetCountOfWord(n);
    assert OctetCount(n) == 1 + OctetCount(n / 0x100);
    if exp >= 1 { assert OctetCount(n / 0x100) == 1 + OctetCount(n / 0x100 / 0x100); }
    if exp >= 2 { assert OctetCount(n / 0x100 / 0x100) == 1 + OctetCount(n / 0x100 / 0x100 / 0x100); }
  }

  lemma OctetsByUnit(n: uint32, k: nat)
    requires 1 <= k <= 4
    ensures forall i :: 0 <= i < k ==> Octets(n, k)[i] == n / Unit(k - 1 - i) % 0x100
  {
    var n1, n2, n3 := n / 0x100, n / 0x100 / 0x100, n / 0x100 / 0x100 / 0x100;
    assert n2 == n / Unit(2) && n3 == n / Unit(3);
    assert Octets(n, k) == Octets(n1, k - 1) + [n % 0x100];
    if k > 1 { assert Octets(n1, k - 1) == Octets(n2, k - 2) + [n1 % 0x100]; }
    if k > 2 { assert Octets(n2, k - 2) == Octets(n3, k - 3) + [n2 % 0x100]; }
    if k > 3 { assert Octets(n3, k - 3) == [] + [n3 % 0x100]; }
  }

  /** atcacert_der_dec_length. */
  method DecLength(buf: array<byte>, at: nat, size: nat) returns (st: Status, newSize: nat, length: uint32)
    requires at + size <= buf.Length
    ensures st == DecodeLength(buf[at..at + size]).Code()
    ensures st.Ok? ==> DecodeLength(buf[at..at + size]) == Success((length, newSize))
    ensures !st.Ok? ==> newSize == size
  {
    newSize, length := size, 0;
    if size < 1 {
      return DecodingError, size, 0;
    }
    ghost var s: seq<byte> := buf[at..at + size];
    if buf[at] >= 0x80 {
      var k := buf[at] - 0x80;
      if size < k + 1 || k == 0 || k > 4 {
        return DecodingError, size, 0;
      }
      var sum := 0;
      for i := 1 to k + 1
        invariant sum == Value(s[1..i]) * Pow256(k + 1 - i)
      {
        assert s[1..i + 1][..i - 1] == s[1..i];
        UnitIsPower(k - i);
        calc {
          sum + buf[at + i] * Unit(k - i);
          Value(s[1..i]) * (0x100 * Pow256(k - i)) + s[i] * Pow256(k - i);
          (Value(s[1..i]) * 0x100 + s[i]) * Pow256(k - i);
          Value(s[1..i + 1]) * Pow256(k - i);
        }
        sum := sum + buf[at + i] * Unit(k - i);
      }
      ValueOfWord(s[1..k + 1]);
      length := sum;
      newSize := k + 1;
    } else {
      length := buf[at];
      newSize := 1;
    }
    st := Ok;
  }

  /** A C int. */
  type int32 = d: int | -0x8000_0000 < d < 0x8000_0000

  /** The length that replaces the one at the front of s, or why it cannot be replaced in place. */
  function AdjustedLength(s: seq<byte>, delta: int32): (r: Result<(uint32, nat)>)
    ensures r.Success? ==> DecodeLength(s).Success? && r.value.1 == DecodeLength(s).value.1
    ensures r.Failure? ==> r.error in {DecodingError, GeneralError, BadCert}
  {
    var (oldLen, used) :- DecodeLength(s);
    if delta < 0 && -delta > oldLen then Failure(GeneralError)
    else
      var newLen := (oldLen + delta) % U32;
      if |LengthOctets(newLen)| != used then Failure(BadCert) else Success((newLen, used))
  }

  /** atcacert_der_adjust_length: only the octets of the field itself are ever written. */
  method AdjustLength(buf: array<byte>, at: nat, size: nat, delta: int32)
    returns (st: Status, newSize: nat, newLength: uint32)
    requires at + size <= buf.Length
    modifies buf
    ensures st == AdjustedLength(old(buf[at..at + size]), delta).Code()
    ensures st.Ok? ==> AdjustedLength(old(buf[at..at + size]), delta) == Success((newLength, newSize))
    ensures st.Ok? ==> buf[..] == Splice(old(buf[..]), at, LengthOctets(newLength))
    ensures st.Ok? ==> DecodeLength(buf[at..at + size]) == Success((newLength, newSize))
    ensures !st.Ok? ==> buf[..] == old(buf[..])
  {
    hide Splice, LengthOctets, DecodeLength;
    var oldLen;
    st, newSize, oldLen := DecLength(buf, at, size);
    newLength := 0;
    if st != Ok {
      return;
    }
    if delta < 0 && -delta > oldLen {
      return GeneralError, newSize, newLength;
    }
    newLength := (oldLen + delta) % U32;
    var newField := new byte[5](_ => 0);
    ghost var blank: seq<byte> := newField[..];
    var newFieldSize;
    st, newFieldSize := EncLength(newLength, newField, 0, 5);
    if st != Ok {
      return;
    }
    if newSize != newFieldSize {
      return BadCert, newSize, newLength;
    }
    SpliceInside(blank, 0, LengthOctets(newLength));
    ghost var was: seq<byte> := buf[..];
    Memcpy(buf, at, newField, 0, newFieldSize);
    assert newField[..][0..newFieldSize] == LengthOctets(newLength);
    assert buf[..] == Splice(was, at, LengthOctets(newLength));
    SpliceInside(was, at, LengthOctets(newLength));
    LengthRoundTrip(newLength, buf[at + newSize..at + size]);
    SliceSplit(buf[..], at, at + newSize, at + size);
    st := Ok;
  }

  /**
   * An adjustment that succeeds changes the decoded length by exactly delta unless the sum leaves
   * the 32-bit range, in which case it is off by 2^32.
   */
  lemma AdjustmentIsExact(s: seq<byte>, delta: int32)
    requires AdjustedLength(s, delta).Success?
    ensures AdjustedLength(s, delta).value.0 == DecodeLength(s).value.0 + delta
            <==> DecodeLength(s).value.0 + delta < U32
  {
  }

  /** Both outcomes of the lemma above occur: this field wraps. */
  lemma AdjustmentCanWrap()
    ensures AdjustedLength([0x84, 0xFF, 0xFF, 0xFF, 0xFF], 0x7FFF_FFFF) == Success((0x7FFF_FFFE, 5))
  {
    hide LengthOctets;
    var s: seq<byte> := [0x84, 0xFF, 0xFF, 0xFF, 0xFF];
    assert s[1..5] == [0xFF, 0xFF, 0xFF, 0xFF];
    assert Value([0xFF]) == 0xFF by { assert [0xFF][..0] == []; }
    assert Value([0xFF, 0xFF]) == 0xFFFF by { assert [0xFF, 0xFF][..1] == [0xFF]; }
    assert Value([0xFF, 0xFF, 0xFF]) == 0xFF_FFFF by { assert [0xFF, 0xFF, 0xFF][..2] == [0xFF, 0xFF]; }
    assert [0xFF, 0xFF, 0xFF, 0xFF][..3] == [0xFF, 0xFF, 0xFF];
    OctetCountByUnit(0x7FFF_FFFE, 3);
    FieldWidth(0x7FFF_FFFE);
  }

  /** Adjusting a field the encoder wrote: it works exactly when the width stays the same. */
  lemma AdjustCanonicalField(n: uint32, rest: seq<byte>, delta: int32)
    requires 0 <= n + delta < U32
    ensures AdjustedLength(LengthOctets(n) + rest, delta)
            == if |LengthOctets(n + delta)| == |LengthOctets(n)| then Success((n + delta, |LengthOctets(n)|))
               else Failure(BadCert)
  {
    LengthRoundTrip(n, rest);
    assert (n + delta) % U32 == n + delta;
  }
}
