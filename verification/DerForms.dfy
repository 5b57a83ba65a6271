/**
 * What the octets of a DER length, an INTEGER and an ECDSA-Sig-Value look like (ITU-T X.690 sections
 * 8.1.3 and 8.3, RFC 3279 section 2.2.3), and that the encoders of
 * src/cryptoauthlib/lib/atcacert/atcacert_der.c write and its decoders accept exactly that.
 */
module DerForms {
  import opened Bytes
  import opened BigEndian
  import opened DerLength
  import opened DerInteger
  import opened EcdsaSig

  // ----- lengths -----

  /** The short form, or the number of octets that follow with the top bit set, and those octets. */
  predicate IsLength(field: seq<byte>, n: nat) {
    || (|field| == 1 && n < 128 && field[0] == n)
    || (2 <= |field| <= 5 && field[0] == 128 + (|field| - 1) && Value(field[1..]) == n)
  }

  lemma LengthOctetsForm(n: uint32)
    ensures IsLength(LengthOctets(n), n)
  {
    hide Value, Octets, OctetCount;
    if n >= 0x80 {
      OctetCountOfWord(n);
      ValueOfOctets(n, OctetCount(n));
      assert LengthOctets(n)[1..] == Octets(n, OctetCount(n));
    }
  }

  /** The decoder reads n in w octets. */
  predicate ReadsLength(s: seq<byte>, n: nat, w: nat) {
    DecodeLength(s).Success? && DecodeLength(s).value == (n, w)
  }

  /** The decoder accepts exactly the strings that begin with a length of at most four octets. */
  lemma LengthForm(s: seq<byte>, n: nat, w: nat)
    ensures ReadsLength(s, n, w) <==> w <= |s| && IsLength(s[..w], n)
  {
    hide Value;
    if 2 <= w <= |s| {
      SliceOfSlice(s, 0, w, 1, w);
      assert s[..w] == s[0..w] && s[..w][1..] == s[..w][1..w];
    }
  }

  // ----- integers -----

  /** Tag, length and contents. */
  predicate IsInteger(tlv: seq<byte>, field: seq<byte>, content: seq<byte>) {
    tlv == [0x02] + field + content && IsLength(field, |content|)
  }

  lemma IntegerForm(data: seq<byte>, unsigned: bool)
    requires |data| + 1 < U32
    ensures var content := Content(data, unsigned);
            IsInteger(IntegerTlv(data, unsigned), LengthOctets(|content|), content)
  {
    hide LengthOctets, Content, IsLength;
    ContentSize(data, unsigned);
    LengthOctetsForm(|Content(data, unsigned)|);
  }

  lemma ContentSize(data: seq<byte>, unsigned: bool)
    ensures |Content(data, unsigned)| <= |data| + 1
  {
  }

  predicate ReadsInteger(s: seq<byte>, content: seq<byte>, used: nat) {
    DecodeInteger(s).Success? && DecodeInteger(s).value.0 == content && DecodeInteger(s).value.1 == used
  }

  /** The decoder accepts exactly the strings that begin with an INTEGER. */
  lemma IntegerAccepted(s: seq<byte>, content: seq<byte>, used: nat)
    ensures ReadsInteger(s, content, used)
            <==> used <= |s| && exists field :: IsInteger(s[..used], field, content)
  {
    hide DecodeLength, IsLength;
    if ReadsInteger(s, content, used) {
      IntegerRead(s, content, used);
    }
    if used <= |s| {
      forall field | IsInteger(s[..used], field, content) ensures ReadsInteger(s, content, used) {
        IntegerIsRead(s, field, content, used);
      }
    }
  }

  lemma IntegerRead(s: seq<byte>, content: seq<byte>, used: nat)
    requires ReadsInteger(s, content, used)
    ensures used <= |s| && exists field :: IsInteger(s[..used], field, content)
  {
    hide DecodeLength, IsLength;
    var (n, w) := DecodeLength(s[1..]).value;
    LengthForm(s[1..], n, w);
    var field := s[1..][..w];
    assert s[..used] == [0x02] + field + content;
    assert IsInteger(s[..used], field, content);
  }

  lemma IntegerIsRead(s: seq<byte>, field: seq<byte>, content: seq<byte>, used: nat)
    requires used <= |s| && IsInteger(s[..used], field, content)
    ensures ReadsInteger(s, content, used)
  {
    hide DecodeLength, IsLength;
    var w := |field|;
    assert s[0] == s[..used][0] == 0x02;
    assert s[1..][..w] == field by { Middle(s, used, [0x02], field, content); }
    LengthForm(s[1..], |content|, w);
    assert s[1 + w..used] == content by { Middle(s, used, [0x02], field, content); }
  }

  lemma Middle(s: seq<byte>, used: nat, a: seq<byte>, b: seq<byte>, c: seq<byte>)
    requires used <= |s| && s[..used] == a + b + c
    ensures used == |a| + |b| + |c| && s[|a|..][..|b|] == b && s[|a| + |b|..used] == c
  {
    assert |s[..used]| == used;
    forall i | 0 <= i < |b| ensures s[|a|..][..|b|][i] == b[i] {
      assert s[..used][|a| + i] == b[i];
    }
    forall i | 0 <= i < |c| ensures s[|a| + |b|..used][i] == c[i] {
      assert s[..used][|a| + |b| + i] == c[i];
    }
  }

  // ----- signatures -----

  /** The pieces of a BIT STRING that holds a SEQUENCE of two INTEGERs. */
  datatype SigParts = SigParts(bits: seq<byte>, items: seq<byte>, r: seq<byte>, t: seq<byte>)

  function SigOctets(p: SigParts): seq<byte> {
    [0x03] + p.bits + [0x00, 0x30] + p.items + p.r + p.t
  }

  /** A 32-octet number as an INTEGER of at most 33 contents octets. */
  ghost predicate IsScalar(tlv: seq<byte>, number: seq<byte>) {
    exists field, content :: IsInteger(tlv, field, content) && |content| <= 33 && Value(content) == Value(number)
  }

  /** The lengths are right, and the two integers are R and S. */
  ghost predicate Spells(p: SigParts, raw: RawSig) {
    && IsLength(p.bits, |p.r| + |p.t| + 3) && IsLength(p.items, |p.r| + |p.t|)
    && IsScalar(p.r, raw[..32]) && IsScalar(p.t, raw[32..])
  }

  /** The encoder writes short lengths, and R and S as INTEGERs with minimal, non-negative contents. */
  lemma SigValueForm(raw: RawSig)
    ensures var r, t := Content(raw[..32], true), Content(raw[32..], true);
            var n := |r| + |t| + 4;
            && SigValue(raw) == [0x03, n + 3, 0x00, 0x30, n] + ([0x02, |r|] + r) + ([0x02, |t|] + t)
            && Signed(r) == Value(raw[..32]) && Signed(t) == Value(raw[32..]) && !Redundant(r) && !Redundant(t)
  {
    hide Content, Signed, Value, Redundant, IntegerTlv;
    ContentMeansData(raw[..32], true);
    ContentMeansData(raw[32..], true);
    ScalarTlv(raw[..32]);
    ScalarTlv(raw[32..]);
  }

  /** The largest encoding there is. */
  lemma LargestSig(raw: RawSig)
    requires raw[0] >= 0x80 && raw[32] >= 0x80
    ensures |SigValue(raw)| == 75
  {
    hide Value;
    ScalarTlv(raw[..32]);
    ScalarTlv(raw[32..]);
  }

  lemma ScalarTlv(data: seq<byte>)
    requires |data| == 32
    ensures |Content(data, true)| <= 33 && IntegerTlv(data, true) == [0x02, |Content(data, true)|] + Content(data, true)
  {
    hide Content;
    TlvSize(data);
  }

  predicate ReadsSig(s: seq<byte>, raw: RawSig, used: nat) {
    DecodeSig(s).Success? && DecodeSig(s).value.0 == raw && DecodeSig(s).value.1 == used
  }

  /** The decoder accepts exactly the strings that begin with these pieces. */
  lemma SigAccepted(s: seq<byte>, raw: RawSig, used: nat)
    ensures ReadsSig(s, raw, used) <==> used <= |s| && exists p :: Spells(p, raw) && SigOctets(p) == s[..used]
  {
    hide ReadsSig, Spells, SigOctets;
    if ReadsSig(s, raw, used) {
      SigRead(s, raw, used);
    }
    if used <= |s| {
      forall p | Spells(p, raw) && SigOctets(p) == s[..used] ensures ReadsSig(s, raw, used) {
        SigIsRead(s, p, raw, used);
      }
    }
  }

  predicate ReadsScalar(s: seq<byte>, number: seq<byte>, used: nat) {
    && DecodeScalar(s).Success? && DecodeScalar(s).value.1 == used
    && ToRaw(DecodeScalar(s).value.0).Success? && ToRaw(DecodeScalar(s).value.0).value == number
  }

  lemma ScalarAccepted(s: seq<byte>, number: seq<byte>, used: nat)
    requires |number| == 32
    ensures ReadsScalar(s, number, used) <==> used <= |s| && IsScalar(s[..used], number)
  {
    hide IsInteger, DecodeInteger, Value, ToRaw;
    if ReadsScalar(s, number, used) {
      var content := DecodeScalar(s).value.0;
      IntegerAccepted(s, content, used);
      var field :| IsInteger(s[..used], field, content);
    }
    if used <= |s| && IsScalar(s[..used], number) {
      var field, content :| IsInteger(s[..used], field, content) && |content| <= 33 && Value(content) == Value(number);
      IntegerAccepted(s, content, used);
      RawIs(content, number);
    }
  }

  lemma RawIs(content: seq<byte>, number: seq<byte>)
    requires |content| <= 33 && |number| == 32 && Value(content) == Value(number)
    ensures ToRaw(content).Success? && ToRaw(content).value == number
  {
    hide Value;
    if |content| == 33 {
      ValueFromFront(content);
      ValueBound(number);
      if content[0] != 0 {
        Times(content[0], Pow256(32));
      }
    }
    ValueInjective(ToRaw(content).value, number);
  }

  lemma Times(a: nat, p: nat)
    requires a > 0
    ensures a * p >= p
  {
  }

  lemma PairAccepted(s: seq<byte>, raw: RawSig, used: nat, k: nat)
    requires k <= used <= |s| && IsScalar(s[..k], raw[..32]) && IsScalar(s[k..used], raw[32..])
    ensures DecodePair(s).Success? && DecodePair(s).value.0 == raw && DecodePair(s).value.1 == used
  {
    hide IsScalar, DecodeScalar, ToRaw;
    ScalarAccepted(s, raw[..32], k);
    assert s[k..][..used - k] == s[k..used];
    ScalarAccepted(s[k..], raw[32..], used - k);
    ScalarIsLong(s[k..used], raw[32..]);
    assert raw[..32] + raw[32..] == raw;
  }

  lemma ScalarIsLong(tlv: seq<byte>, number: seq<byte>)
    requires IsScalar(tlv, number)
    ensures |tlv| >= 2
  {
  }

  lemma PairRead(s: seq<byte>) returns (k: nat)
    requires DecodePair(s).Success?
    ensures var (raw, used) := DecodePair(s).value;
            k <= used <= |s| && IsScalar(s[..k], raw[..32]) && IsScalar(s[k..used], raw[32..])
  {
    hide IsScalar, DecodeScalar, ToRaw;
    var (raw, used) := DecodePair(s).value;
    k := DecodeScalar(s).value.1;
    ScalarAccepted(s, raw[..32], k);
    ScalarAccepted(s[k..], raw[32..], used - k);
    assert s[k..][..used - k] == s[k..used];
  }

  /** The headers, and where the integers begin. */
  lemma HeadersAccepted(s: seq<byte>, bits: seq<byte>, items: seq<byte>, b: nat, n: nat)
    requires var at := 3 + |bits| + |items|;
             at < |s| && s[..at] == [0x03] + bits + [0x00, 0x30] + items && at + n <= |s| && 1 + |bits| + b <= |s|
    requires IsLength(bits, b) && IsLength(items, n)
    ensures DecodeHeaders(s).Success? && DecodeHeaders(s).value == (b, n, 3 + |bits| + |items|)
  {
    hide DecodeLength, IsLength;
    var v, at := 1 + |bits|, 3 + |bits| + |items|;
    var t := s[..at];
    assert s[0] == t[0] && s[v] == t[v] == 0x00 && s[v + 1] == t[v + 1] == 0x30;
    assert s[1..][..|bits|] == bits by { assert t[1..v] == bits; SliceOfSlice(s, 0, at, 1, v); }
    LengthForm(s[1..], b, |bits|);
    assert s[v + 2..][..|items|] == items by { assert t[v + 2..at] == items; SliceOfSlice(s, 0, at, v + 2, at); }
    LengthForm(s[v + 2..], n, |items|);
  }

  lemma HeadersRead(s: seq<byte>) returns (bits: seq<byte>, items: seq<byte>)
    requires DecodeHeaders(s).Success?
    ensures var (b, n, at) := DecodeHeaders(s).value;
            && at == 3 + |bits| + |items| && IsLength(bits, b) && IsLength(items, n)
            && s[..at] == [0x03] + bits + [0x00, 0x30] + items
  {
    hide DecodeLength, IsLength;
    var (b, n, at) := DecodeHeaders(s).value;
    var v := DecodeLength(s[1..]).value.1;
    LengthForm(s[1..], b, v);
    bits := s[1..][..v];
    var w := DecodeLength(s[v + 3..]).value.1;
    LengthForm(s[v + 3..], n, w);
    items := s[v + 3..][..w];
  }

  lemma SigRead(s: seq<byte>, raw: RawSig, used: nat)
    requires ReadsSig(s, raw, used)
    ensures used <= |s| && exists p :: Spells(p, raw) && SigOctets(p) == s[..used]
  {
    hide DecodeHeaders, DecodePair, IsLength, IsScalar;
    var (b, n, at) := DecodeHeaders(s).value;
    var bits, items := HeadersRead(s);
    var k := PairRead(s[at..]);
    var p := SigParts(bits, items, s[at..][..k], s[at..][k..used - at]);
    assert Spells(p, raw);
    ThreePieces(s, at, k, used);
  }

  lemma ThreePieces(s: seq<byte>, at: nat, k: nat, used: nat)
    requires at <= used <= |s| && k <= used - at
    ensures s[..at] + s[at..][..k] + s[at..][k..used - at] == s[..used]
  {
    SliceSplit(s, 0, at, at + k);
    SliceSplit(s, 0, at + k, used);
    SliceOfSlice(s, at, |s| - at, 0, k);
    SliceOfSlice(s, at, |s| - at, k, used - at);
    assert s[at..|s|] == s[at..] && s[0..at] == s[..at] && s[0..used] == s[..used];
  }

  lemma SigIsRead(s: seq<byte>, p: SigParts, raw: RawSig, used: nat)
    requires used <= |s| && Spells(p, raw) && SigOctets(p) == s[..used]
    ensures ReadsSig(s, raw, used)
  {
    hide DecodeHeaders, DecodePair, IsLength, IsScalar;
    var at, n := 3 + |p.bits| + |p.items|, |p.r| + |p.t|;
    var front := [0x03] + p.bits + [0x00, 0x30] + p.items;
    assert s[..used] == front + p.r + p.t;
    Middle(s, used, front, p.r, p.t);
    assert s[..at] == s[..used][..at] == front;
    ScalarIsLong(p.r, raw[..32]);
    LengthIsLong(p.items, n);
    HeadersAccepted(s, p.bits, p.items, n + 3, n);
    assert s[at..][|p.r|..n] == p.t by { SliceOfSlice(s, at, |s| - at, |p.r|, n); assert s[at..] == s[at..at + (|s| - at)]; }
    PairAccepted(s[at..], raw, n, |p.r|);
  }

  lemma LengthIsLong(field: seq<byte>, n: nat)
    requires IsLength(field, n)
    ensures |field| >= 1
  {
  }
}
