/**
 * DER INTEGERs (ITU-T X.690 section 8.3): atcacert_der_enc_integer and atcacert_der_dec_integer of
 * src/cryptoauthlib/lib/atcacert/atcacert_der.c.
 */
module DerInteger {
  import opened Bytes
  import opened BigEndian
  import opened Division
  import opened DerLength

  /** The number a two's-complement octet string stands for. */
  function Signed(s: seq<byte>): int {
    if s != [] && s[0] >= 0x80 then Value(s) - Pow256(|s|) else Value(s)
  }

  /** The first nine bits are all equal, which X.690 section 8.3.2 forbids. */
  predicate Redundant(s: seq<byte>) {
    |s| >= 2 && ((s[0] == 0x00 && s[1] < 0x80) || (s[0] == 0xFF && s[1] >= 0x80))
  }

  /** How many leading octets the encoder drops. */
  function TrimCount(s: seq<byte>): (n: nat)
    ensures n <= |s| && (|s| > 0 ==> n < |s|)
  {
    if Redundant(s) then 1 + TrimCount(s[1..]) else 0
  }

  /** An unsigned value with its top bit set gets a leading zero octet; any other is trimmed. */
  function Padding(data: seq<byte>, unsigned: bool): (p: seq<byte>)
    ensures p == [] || p == [0]
  {
    if unsigned && data != [] && data[0] >= 0x80 then [0] else []
  }

  function Trimmed(data: seq<byte>, unsigned: bool): (t: seq<byte>) {
    if Padding(data, unsigned) == [] then data[TrimCount(data)..] else data
  }

  /** The contents octets for an integer given as big-endian data. */
  function Content(data: seq<byte>, unsigned: bool): (c: seq<byte>)
    ensures |c| == |Padding(data, unsigned)| + |Trimmed(data, unsigned)|
  {
    Padding(data, unsigned) + Trimmed(data, unsigned)
  }

  /** Tag, length and contents. */
  function IntegerTlv(data: seq<byte>, unsigned: bool): seq<byte>
    requires |data| + 1 < U32
  {
    [0x02] + LengthOctets(|Content(data, unsigned)|) + Content(data, unsigned)
  }

  /** What a decoder reads from the front of s: the contents, and how many octets the TLV took. */
  function DecodeInteger(s: seq<byte>): (r: Result<(seq<byte>, nat)>)
    ensures r.Success? ==> 2 <= r.value.1 <= |s| && |r.value.0| <= r.value.1 - 2
  {
    if |s| < 1 || s[0] != 0x02 then Failure(DecodingError)
    else
      var (n, k) :- DecodeLength(s[1..]);
      if |s| < 1 + k + n then Failure(DecodingError) else Success((s[1 + k..1 + k + n], 1 + k + n))
  }

  // ----- what the encoding means -----

  /** Dropping one redundant octet keeps the two's-complement value. */
  lemma RedundantOctet(s: seq<byte>)
    requires Redundant(s)
    ensures Signed(s[1..]) == Signed(s)
  {
    ValueFromFront(s);
    if s[0] == 0xFF {
      assert Pow256(|s|) == 0x100 * Pow256(|s| - 1);
    }
  }

  lemma {:induction false} TrimKeepsSigned(s: seq<byte>)
    ensures Signed(s[TrimCount(s)..]) == Signed(s)
    ensures !Redundant(s[TrimCount(s)..])
    ensures s != [] && s[0] < 0x80 ==> s[TrimCount(s)] < 0x80
  {
    if Redundant(s) {
      RedundantOctet(s);
      TrimKeepsSigned(s[1..]);
      assert s[1..][TrimCount(s[1..])..] == s[TrimCount(s)..];
    } else {
      assert s[0..] == s;
    }
  }

  /**
   * The contents octets stand for the input value, unsigned or signed as the caller asked, and they
   * are never redundant. For an unsigned value with its top bit clear the trimming rule for 0xFF
   * never applies: every octet that reaches the front while trimming is below 0x80.
   */
  lemma ContentMeansData(data: seq<byte>, unsigned: bool)
    requires data != []
    ensures Signed(Content(data, unsigned)) == if unsigned then Value(data) else Signed(data)
    ensures Content(data, unsigned) != [] && !Redundant(Content(data, unsigned))
    ensures unsigned ==> Content(data, unsigned)[0] < 0x80
  {
    hide Signed, TrimCount, Redundant, Value;
    if unsigned && data[0] >= 0x80 {
      assert Content(data, unsigned) == [0] + data;
      PaddedMeans(data);
    } else {
      TrimKeepsSigned(data);
      assert Content(data, unsigned) == data[TrimCount(data)..];
      PlainMeans(data);
    }
  }

  lemma PaddedMeans(data: seq<byte>)
    requires data != [] && data[0] >= 0x80
    ensures Signed([0] + data) == Value(data) && !Redundant([0] + data)
  {
    hide Value;
    ValueOfPadded([0], data);
  }

  lemma PlainMeans(data: seq<byte>)
    ensures data != [] && data[0] < 0x80 ==> Signed(data) == Value(data)
  {
  }

  /** A non-redundant string is too large in magnitude for any shorter one. */
  lemma SignedMagnitude(c: seq<byte>, s: seq<byte>)
    requires c != [] && s != [] && !Redundant(c) && |s| < |c|
    ensures Signed(s) != Signed(c)
  {
    SignedBounds(s);
    SignedFloor(c);
    PowMonotone(|s|, |c| - 1);
  }

  /** The leading octet as the signed number it contributes. */
  function Head(s: seq<byte>): int
    requires s != []
  {
    var h: int := s[0];
    if h >= 0x80 then h - 0x100 else h
  }

  lemma SignedFromFront(s: seq<byte>)
    requires s != []
    ensures Signed(s) == Head(s) * Pow256(|s| - 1) + Value(s[1..])
  {
    ValueFromFront(s);
    var p := Pow256(|s| - 1);
    assert Pow256(|s|) == 0x100 * p;
    if s[0] >= 0x80 {
      Distribute(s[0], 0x100, p);
    }
  }

  lemma Scale(a: int, b: int, p: nat)
    requires a <= b
    ensures a * p <= b * p
  {
  }

  lemma SignedBounds(s: seq<byte>)
    requires s != []
    ensures 0 <= 2 * Signed(s) + Pow256(|s|)
    ensures 2 * Signed(s) < Pow256(|s|)
  {
    SignedFromFront(s);
    ValueBound(s[1..]);
    Scale(-0x80, Head(s), Pow256(|s| - 1));
    Scale(Head(s), 0x7F, Pow256(|s| - 1));
    assert Pow256(|s|) == 0x100 * Pow256(|s| - 1);
  }

  lemma SignedFloor(c: seq<byte>)
    requires |c| >= 2 && !Redundant(c)
    ensures 2 * Signed(c) >= Pow256(|c| - 1) || 2 * Signed(c) + Pow256(|c| - 1) < 0
  {
    hide Signed, Value, Pow256, Redundant;
    var p, q := Pow256(|c| - 1), Pow256(|c| - 2);
    assert p == 0x100 * q by { PowStep(|c| - 1); }
    SignedFromFront(c);
    ValueFromFront(c[1..]);
    ValueBound(c[1..]);
    ValueBound(c[1..][1..]);
    SecondOctet(c);
    if Head(c) == 0 {
      Scale(0x80, c[1], q);
    } else if Head(c) > 0 {
      Scale(1, Head(c), p);
    } else if Head(c) == -1 {
      Scale(c[1], 0x7F, q);
    } else {
      Scale(Head(c), -2, p);
    }
  }

  lemma PowStep(n: nat)
    requires n > 0
    ensures Pow256(n) == 0x100 * Pow256(n - 1)
  {
  }

  lemma SecondOctet(c: seq<byte>)
    requires |c| >= 2 && !Redundant(c)
    ensures Head(c) == 0 ==> c[1] >= 0x80
    ensures Head(c) == -1 ==> c[1] < 0x80
  {
  }

  lemma {:induction false} PowMonotone(m: nat, n: nat)
    requires m <= n
    ensures Pow256(m) <= Pow256(n)
    decreases n - m
  {
    if m < n {
      PowMonotone(m, n - 1);
    }
  }

  /** DER's promise: the contents are the one shortest two's-complement form of their value. */
  lemma ContentIsShortest(data: seq<byte>, unsigned: bool, s: seq<byte>)
    requires data != [] && s != [] && Signed(s) == Signed(Content(data, unsigned))
    ensures |Content(data, unsigned)| <= |s|
    ensures |s| == |Content(data, unsigned)| ==> s == Content(data, unsigned)
  {
    var c := Content(data, unsigned);
    ContentMeansData(data, unsigned);
    if |s| < |c| {
      SignedMagnitude(c, s);
    } else if |s| == |c| {
      ValueBound(s);
      ValueBound(c);
      ValueInjective(s, c);
    }
  }

  lemma DecodeContent(c: seq<byte>, rest: seq<byte>)
    requires |c| < U32
    ensures DecodeInteger([0x02] + LengthOctets(|c|) + c + rest) == Success((c, 1 + |LengthOctets(|c|)| + |c|))
  {
    hide LengthOctets, DecodeLength;
    var field := LengthOctets(|c|);
    var s := [0x02] + field + c + rest;
    LengthRoundTrip(|c|, c + rest);
    assert s[1..] == field + (c + rest);
    assert s[1 + |field|..1 + |field| + |c|] == c;
  }

  /** Decoding undoes encoding: it returns the contents, and consumes exactly the TLV. */
  lemma IntegerRoundTrip(data: seq<byte>, unsigned: bool, rest: seq<byte>)
    requires |data| + 1 < U32
    ensures DecodeInteger(IntegerTlv(data, unsigned) + rest)
            == Success((Content(data, unsigned), |IntegerTlv(data, unsigned)|))
  {
    hide Content, LengthOctets, DecodeInteger;
    DecodeContent(Content(data, unsigned), rest);
  }

  // ----- the C functions -----

  /** Everything before the data: the tag, the length field, and the padding octet if there is one. */
  function Header(field: seq<byte>, pad: seq<byte>): (h: seq<byte>)
    ensures |h| == 1 + |field| + |pad|
  {
    [0x02] + field + pad
  }

  lemma TlvParts(data: seq<byte>, unsigned: bool)
    requires 0 < |data| && |data| + 1 < U32
    ensures var pad, part := Padding(data, unsigned), Trimmed(data, unsigned);
            IntegerTlv(data, unsigned) == Header(LengthOctets(|pad| + |part|), pad) + part
  {
    var pad, part := Padding(data, unsigned), Trimmed(data, unsigned);
    Regroup([0x02] + LengthOctets(|pad| + |part|), pad, part);
  }

  /** Whether to drop one octet more. */
  lemma TrimStep(d: seq<byte>, trim: nat)
    requires trim < |d|
    ensures var drop := |d| - trim >= 2
                        && ((d[trim] == 0x00 && d[trim + 1] < 0x80) || (d[trim] == 0xFF && d[trim + 1] >= 0x80));
            TrimCount(d[trim..]) == if drop then 1 + TrimCount(d[trim + 1..]) else 0
  {
    assert |d| - trim >= 2 ==> d[trim..][1..] == d[trim + 1..];
  }

  /** The first half of atcacert_der_enc_integer: how many octets to drop, or whether to add one. */
  method Layout(data: array<byte>, dataAt: nat, dataSize: nat, unsigned: bool) returns (trim: nat, pad: seq<byte>)
    requires dataAt + dataSize <= data.Length && 0 < dataSize && dataSize + 1 < U32
    ensures trim < dataSize
    ensures var d: seq<byte> := data[dataAt..dataAt + dataSize];
            && pad == Padding(d, unsigned)
            && Trimmed(d, unsigned) == data[dataAt + trim..dataAt + dataSize]
  {
    hide TrimCount, Redundant, Padding, Trimmed;
    ghost var d: seq<byte> := data[dataAt..dataAt + dataSize];
    trim, pad := 0, [];
    LayoutIs(d, unsigned);
    if !(unsigned && data[dataAt] >= 0x80) {
      assert d[0..] == d;
      while dataSize - trim >= 2 &&
            ((data[dataAt + trim] == 0x00 && data[dataAt + trim + 1] < 0x80) ||
             (data[dataAt + trim] == 0xFF && data[dataAt + trim + 1] >= 0x80))
        invariant 0 <= trim < dataSize
        invariant TrimCount(d) == trim + TrimCount(d[trim..])
      {
        TrimStep(d, trim);
        trim := trim + 1;
      }
      TrimStep(d, trim);
    } else {
      pad := [0];
    }
    SliceOfSlice(data[..], dataAt, dataSize, trim, dataSize);
    assert d[trim..dataSize] == d[trim..];
  }

  lemma LayoutIs(d: seq<byte>, unsigned: bool)
    requires d != []
    ensures var padded := unsigned && d[0] >= 0x80;
            && Padding(d, unsigned) == (if padded then [0] else [])
            && Trimmed(d, unsigned) == if padded then d[0..] else d[TrimCount(d)..]
  {
    assert d[0..] == d;
  }

  /** The last lines of atcacert_der_enc_integer: tag, length, padding octet and trimmed data. */
  method PutInteger(data: array<byte>, dataAt: nat, dataSize: nat, pad: seq<byte>, field: seq<byte>, out: array<byte>, at: nat)
    requires dataAt + dataSize <= data.Length && (pad == [] || pad == [0])
    requires at + 1 + |field| + |pad| + dataSize <= out.Length
    modifies out
    ensures forall i :: 0 <= i < out.Length && !(at <= i < at + 1 + |field| + |pad| + dataSize) ==> out[i] == old(out[i])
    ensures Disjoint(out, at, 1 + |field| + |pad| + dataSize, data, dataAt, dataSize) ==>
              out[..] == Splice(old(out[..]), at, Header(field, pad) + old(data[dataAt..dataAt + dataSize]))
  {
    hide Splice;
    ghost var was: seq<byte> := out[..];
    CopyInto(out, at, [0x02]);
    CopyInto(out, at + 1, field);
    SpliceAppend(was, at, [0x02], field);
    if pad != [] {
      CopyInto(out, at + |field| + 1, [0]);
      SpliceAppend(was, at, [0x02] + field, [0]);
    }
    assert [0x02] + field + [] == [0x02] + field;
    assert out[..] == Splice(was, at, Header(field, pad));
    SpliceOutside(was, at, Header(field, pad));
    assert forall i :: 0 <= i < out.Length && !(at <= i < at + 1 + |field| + |pad|) ==> out[i] == out[..][i] == was[i];
    assert data != out ==> data[..] == old(data[..]);
    assert Disjoint(out, at, 1 + |field| + |pad| + dataSize, data, dataAt, dataSize) ==>
      data[dataAt..dataAt + dataSize] == old(data[dataAt..dataAt + dataSize]);
    Memcpy(out, at + |field| + 1 + |pad|, data, dataAt, dataSize);
    if Disjoint(out, at, 1 + |field| + |pad| + dataSize, data, dataAt, dataSize) {
      SpliceAppend(was, at, Header(field, pad), old(data[dataAt..dataAt + dataSize]));
    }
  }

  /** atcacert_der_enc_integer; out is null when the caller only wants the size. */
  method EncInteger(data: array<byte>, dataAt: nat, dataSize: nat, unsigned: bool, out: array?<byte>, at: nat, size: nat)
    returns (st: Status, newSize: nat)
    requires dataAt + dataSize <= data.Length && dataSize + 1 < U32
    requires out != null ==> at + size <= out.Length
    modifies if out == null then {} else {out}
    ensures dataSize == 0 ==> st == BadParams && newSize == size
    ensures dataSize > 0 ==>
              && newSize == |IntegerTlv(old(data[dataAt..dataAt + dataSize]), unsigned)|
              && st == if out != null && newSize > size then BufferTooSmall else Ok
    ensures out != null && !st.Ok? ==> out[..] == old(out[..])
    ensures out != null && st.Ok? ==> at + newSize <= out.Length
    ensures out != null && st.Ok? ==>
              forall i :: 0 <= i < out.Length && !(at <= i < at + newSize) ==> out[i] == old(out[i])
    ensures out != null && st.Ok? && Disjoint(out, at, newSize, data, dataAt, dataSize) ==>
              out[..] == Splice(old(out[..]), at, IntegerTlv(old(data[dataAt..dataAt + dataSize]), unsigned))
  {
    hide IntegerTlv, Header, LengthOctets, Padding, Trimmed, Splice;
    if dataSize <= 0 {
      return BadParams, size;
    }
    ghost var d: seq<byte> := data[dataAt..dataAt + dataSize];
    var trim, pad := Layout(data, dataAt, dataSize, unsigned);
    ghost var part: seq<byte> := data[dataAt + trim..dataAt + dataSize];
    TlvParts(d, unsigned);
    var field := new byte[5](_ => 0);
    ghost var blank: seq<byte> := field[..];
    var fieldSize;
    st, fieldSize := EncLength(dataSize + |pad| - trim, field, 0, 5);
    newSize := 1 + fieldSize + dataSize + |pad| - trim;
    if out != null && newSize > size {
      return BufferTooSmall, newSize;
    }
    if out == null {
      return Ok, newSize;
    }
    SpliceInside(blank, 0, LengthOctets(dataSize + |pad| - trim));
    PutInteger(data, dataAt + trim, dataSize - trim, pad, field[..fieldSize], out, at);
  }

  /** atcacert_der_dec_integer; out is null when the caller only wants the sizes. */
  method DecInteger(buf: array<byte>, at: nat, size: nat, out: array?<byte>, outSize: nat)
    returns (st: Status, newSize: nat, newOutSize: nat)
    requires at + size <= buf.Length
    requires out != null ==> outSize <= out.Length && out != buf
    modifies if out == null then {} else {out}
    ensures var r := DecodeInteger(old(buf[at..at + size]));
            && (r.Failure? ==> st == r.error && newSize == size && newOutSize == outSize)
            && (r.Success? ==>
                 && newSize == r.value.1
                 && newOutSize == |r.value.0|
                 && st == (if out != null && outSize < newOutSize then BufferTooSmall else Ok)
                 && (out != null && st.Ok? ==> out[..] == Splice(old(out[..]), 0, r.value.0)))
    ensures out != null && !st.Ok? ==> out[..] == old(out[..])
  {
    hide DecodeLength, Splice;
    newSize, newOutSize := size, outSize;
    if size < 1 {
      return DecodingError, size, outSize;
    }
    if buf[at] != 0x02 {
      return DecodingError, size, outSize;
    }
    ghost var s: seq<byte> := buf[at..at + size];
    assert buf[at + 1..at + size] == s[1..];
    var fieldSize, count;
    st, fieldSize, count := DecLength(buf, at + 1, size - 1);
    if st != Ok {
      return;
    }
    if size < 1 + fieldSize + count {
      return DecodingError, size, outSize;
    }
    newSize := 1 + fieldSize + count;
    if out != null && outSize < count {
      return BufferTooSmall, newSize, count;
    }
    newOutSize := count;
    if out == null {
      return Ok, newSize, newOutSize;
    }
    SliceOfSlice(buf[..], at, size, 1 + fieldSize, 1 + fieldSize + count);
    Memcpy(out, 0, buf, at + 1 + fieldSize, count);
  }
}
