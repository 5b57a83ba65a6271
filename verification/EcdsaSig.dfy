/**
 * The ECDSA-Sig-Value BIT STRING of a certificate (RFC 3279 section 2.2.3, RFC 5280 section 4.1.1.3):
 * atcacert_der_enc_ecdsa_sig_value and atcacert_der_dec_ecdsa_sig_value of
 * src/cryptoauthlib/lib/atcacert/atcacert_der.c.
 */
module EcdsaSig {
  import opened Bytes
  import opened BigEndian
  import opened DerLength
  import opened DerInteger

  /** R and S, 32 octets each. */
  type RawSig = s: seq<byte> | |s| == 64 witness seq(64, _ => 0)

  function RTlv(raw: RawSig): seq<byte> { IntegerTlv(raw[..32], true) }

  function STlv(raw: RawSig): seq<byte> { IntegerTlv(raw[32..], true) }

  /** BIT STRING, no spare bits, SEQUENCE of R and S. */
  function SigValue(raw: RawSig): (der: seq<byte>)
    ensures |der| == 5 + |RTlv(raw)| + |STlv(raw)|
    ensures 11 <= |der| <= 75
  {
    TlvSize(raw[..32]);
    TlvSize(raw[32..]);
    SigHeader(|RTlv(raw)| + |STlv(raw)|) + RTlv(raw) + STlv(raw)
  }

  function SigHeader(n: nat): seq<byte>
    requires n + 3 < 0x100
  {
    [0x03, n + 3, 0x00, 0x30, n]
  }

  lemma TlvSize(data: seq<byte>)
    requires |data| == 32
    ensures 3 <= |IntegerTlv(data, true)| <= 35
    ensures 1 <= |Content(data, true)| <= 33
  {
    ContentMeansData(data, true);
  }

  /** The 32-octet integer a DER INTEGER's contents become, if they fit. */
  function ToRaw(content: seq<byte>): (r: Result<seq<byte>>)
    requires |content| <= 33
    ensures r.Success? ==> |r.value| == 32 && Value(r.value) == Value(content)
  {
    if |content| <= 32 then
      ValueOfPadded(Zeros(32 - |content|), content);
      Success(Zeros(32 - |content|) + content)
    else if content[0] != 0 then Failure(DecodingError)
    else
      ValueFromFront(content);
      Success(content[1..])
  }

  /** The integer at the front of s, limited to the decoder's 33-octet scratch buffer. */
  function DecodeScalar(s: seq<byte>): (r: Result<(seq<byte>, nat)>)
    ensures r.Success? ==> |r.value.0| <= 33 && 2 <= r.value.1 <= |s|
  {
    var (content, used) :- DecodeInteger(s);
    if |content| > 33 then Failure(BufferTooSmall) else Success((content, used))
  }

  /** The two headers at the front of s: the lengths they announce, and where R starts. */
  function DecodeHeaders(s: seq<byte>): (h: Result<(nat, nat, nat)>)
    ensures h.Success? ==> 5 <= h.value.2 < |s|
  {
    if |s| < 1 || s[0] != 0x03 then Failure(DecodingError)
    else
      var (bits, bitsUsed) :- DecodeLength(s[1..]);
      var at := 1 + bitsUsed;
      if at + bits > |s| || at >= |s| || s[at] != 0x00 then Failure(DecodingError)
      else if at + 1 >= |s| || s[at + 1] != 0x30 || at + 2 >= |s| then Failure(DecodingError)
      else
        var (items, itemsUsed) :- DecodeLength(s[at + 2..]);
        if at + 2 + itemsUsed + items > |s| || at + 2 + itemsUsed >= |s| then Failure(DecodingError)
        else Success((bits, items, at + 2 + itemsUsed))
  }

  /** The two INTEGERs at the front of s. */
  function DecodePair(s: seq<byte>): (p: Result<(RawSig, nat)>)
    ensures p.Success? ==> 4 <= p.value.1 <= |s|
  {
    var (rContent, rUsed) :- DecodeScalar(s);
    var r :- ToRaw(rContent);
    if rUsed >= |s| then Failure(DecodingError)
    else
      var (sContent, sUsed) :- DecodeScalar(s[rUsed..]);
      var sv :- ToRaw(sContent);
      Success((r + sv, rUsed + sUsed))
  }

  /** What the decoder reads from the front of s: R and S as 64 octets, and the octets consumed. */
  function DecodeSig(s: seq<byte>): (r: Result<(RawSig, nat)>)
    ensures r.Success? ==> 9 <= r.value.1 <= |s|
  {
    var (bits, items, at) :- DecodeHeaders(s);
    var (raw, used) :- DecodePair(s[at..]);
    if items != used || bits != used + 3 then Failure(DecodingError) else Success((raw, at + used))
  }

  // ----- the round trip -----

  lemma DecodeScalarOfTlv(data: seq<byte>, rest: seq<byte>)
    requires |data| == 32
    ensures DecodeScalar(IntegerTlv(data, true) + rest) == Success((Content(data, true), |IntegerTlv(data, true)|))
    ensures ToRaw(Content(data, true)) == Success(data)
  {
    hide DecodeInteger, IntegerTlv, ToRaw;
    IntegerRoundTrip(data, true, rest);
    TlvSize(data);
    RawOfContent(data);
  }

  lemma RawOfContent(data: seq<byte>)
    requires |data| == 32
    ensures |Content(data, true)| <= 33 && ToRaw(Content(data, true)) == Success(data)
  {
    var c := Content(data, true);
    TlvSize(data);
    if Padding(data, true) == [] {
      assert c == data[TrimCount(data)..];
      ValueOfTrimmed(data);
      ValueInjective(ToRaw(c).value, data);
    } else {
      assert c[1..] == data;
    }
  }

  lemma ValueOfTrimmed(data: seq<byte>)
    requires |data| == 32 && data[0] < 0x80
    ensures Value(data[TrimCount(data)..]) == Value(data)
  {
    TrimKeepsSigned(data);
  }

  lemma PairRoundTrip(raw: RawSig, rest: seq<byte>)
    ensures DecodePair(RTlv(raw) + STlv(raw) + rest) == Success((raw, |RTlv(raw)| + |STlv(raw)|))
  {
    hide IntegerTlv, DecodeScalar, ToRaw, Content;
    TlvSize(raw[32..]);
    var s := RTlv(raw) + STlv(raw) + rest;
    DecodeScalarOfTlv(raw[..32], STlv(raw) + rest);
    Regroup(RTlv(raw), STlv(raw), rest);
    DecodeScalarOfTlv(raw[32..], rest);
    assert s[|RTlv(raw)|..] == STlv(raw) + rest;
    assert raw[..32] + raw[32..] == raw;
  }

  lemma HeadersRoundTrip(n: nat, rest: seq<byte>)
    requires 0 < n <= |rest| && n + 3 < 0x80
    ensures DecodeHeaders(SigHeader(n) + rest) == Success((n + 3, n, 5))
  {
    hide DecodeLength;
    var s := SigHeader(n) + rest;
    ShortField(n + 3, s[2..]);
    assert s[1..] == [n + 3] + s[2..];
    ShortField(n, rest);
    assert s[4..] == [n] + rest;
  }

  /** Every 64-octet signature survives encoding, and decoding consumes exactly what was encoded. */
  lemma SigRoundTrip(raw: RawSig, rest: seq<byte>)
    ensures DecodeSig(SigValue(raw) + rest) == Success((raw, |SigValue(raw)|))
  {
    hide RTlv, STlv, DecodePair, DecodeHeaders;
    var r, sv := RTlv(raw), STlv(raw);
    var n := |r| + |sv|;
    var s := SigValue(raw) + rest;
    assert s == SigHeader(n) + (r + sv + rest);
    HeadersRoundTrip(n, r + sv + rest);
    PairRoundTrip(raw, rest);
    assert s[5..] == r + sv + rest;
  }

  lemma ShortField(n: byte, rest: seq<byte>)
    requires n < 0x80
    ensures DecodeLength([n] + rest) == Success((n, 1))
  {
  }

  /** Distinct signatures have distinct encodings, even as prefixes of longer data. */
  lemma SigValueInjective(raw1: RawSig, raw2: RawSig)
    requires SigValue(raw1) <= SigValue(raw2)
    ensures raw1 == raw2
  {
    hide SigValue, DecodeSig;
    SigRoundTrip(raw1, SigValue(raw2)[|SigValue(raw1)|..]);
    SigRoundTrip(raw2, []);
    assert SigValue(raw1) + SigValue(raw2)[|SigValue(raw1)|..] == SigValue(raw2) + [];
  }

  // ----- the C functions -----

  /**
   * atcacert_der_enc_ecdsa_sig_value; out is null when the caller only wants the size. A caller may
   * encode in place if the raw signature starts at least eight octets after the output: the size is
   * then still right, though S may be overwritten before it is copied.
   */
  method EncSig(raw: array<byte>, rawAt: nat, out: array?<byte>, at: nat, size: nat)
    returns (st: Status, newSize: nat)
    requires rawAt + 64 <= raw.Length
    requires out != null ==> at + size <= out.Length
    requires out == raw ==> at + 8 <= rawAt || rawAt + 64 <= at
    modifies if out == null then {} else {out}
    ensures newSize == |SigValue(old(raw[rawAt..rawAt + 64]))|
    ensures st == if out != null && size < newSize then BufferTooSmall else Ok
    ensures out != null && !st.Ok? ==> out[..] == old(out[..])
    ensures out != null && st.Ok? ==>
              forall i :: 0 <= i < out.Length && !(at <= i < at + newSize) ==> out[i] == old(out[i])
    ensures out != null && st.Ok? && Disjoint(out, at, newSize, raw, rawAt, 64) ==>
              out[..] == Splice(old(out[..]), at, SigValue(old(raw[rawAt..rawAt + 64])))
  {
    hide Splice, IntegerTlv, RTlv, STlv, SigHeader;
    ghost var sig: RawSig := raw[rawAt..rawAt + 64];
    TlvsOf(sig);
    assert raw[rawAt..rawAt + 32] == sig[..32];
    assert raw[rawAt + 32..rawAt + 32 + 32] == sig[32..];
    var rSize, sSize;
    st, rSize := EncInteger(raw, rawAt, 32, true, null, 0, 0);
    st, sSize := EncInteger(raw, rawAt + 32, 32, true, null, 0, 0);
    newSize := 5 + rSize + sSize;
    if out != null && size < newSize {
      return BufferTooSmall, newSize;
    }
    if out == null {
      return Ok, newSize;
    }
    PutSig(raw, rawAt, out, at, rSize, sSize);
  }

  /** Lines 353-359 of atcacert_der.c. */
  method PutHeaders(out: array<byte>, at: nat, n: nat)
    requires n + 3 < 0x100 && at + 5 <= out.Length
    modifies out
    ensures |SigHeader(n)| == 5 && out[..] == Splice(old(out[..]), at, SigHeader(n))
  {
    out[at] := 0x03;
    out[at + 1] := n + 3;
    out[at + 2] := 0x00;
    out[at + 3] := 0x30;
    out[at + 4] := n;
  }

  /** The writing half of EncSig, once the sizes are known to fit. */
  method PutSig(raw: array<byte>, rawAt: nat, out: array<byte>, at: nat, rSize: nat, sSize: nat)
    requires rawAt + 64 <= raw.Length && at + 5 + rSize + sSize <= out.Length
    requires out == raw ==> at + 8 <= rawAt || rawAt + 64 <= at
    requires var sig: RawSig := raw[rawAt..rawAt + 64]; rSize == |RTlv(sig)| && sSize == |STlv(sig)|
    modifies out
    ensures forall i :: 0 <= i < out.Length && !(at <= i < at + 5 + rSize + sSize) ==> out[i] == old(out[i])
    ensures Disjoint(out, at, 5 + rSize + sSize, raw, rawAt, 64) ==>
              out[..] == Splice(old(out[..]), at, SigValue(old(raw[rawAt..rawAt + 64])))
  {
    hide Splice, IntegerTlv, RTlv, STlv, SigHeader;
    ghost var sig: RawSig := raw[rawAt..rawAt + 64];
    TlvsOf(sig);
    ghost var was: seq<byte> := out[..];
    var n := rSize + sSize;
    PutHeaders(out, at, n);
    SpliceOutside(was, at, SigHeader(n));
    assert forall i :: 0 <= i < 64 ==> raw[rawAt + i] == sig[i];
    assert raw[rawAt..rawAt + 32] == sig[..32];
    var st, rGot := EncInteger(raw, rawAt, 32, true, out, at + 5, rSize);
    assert forall i :: 32 <= i < 64 ==> raw[rawAt + i] == sig[i];
    assert raw[rawAt + 32..rawAt + 32 + 32] == sig[32..];
    var st', sGot := EncInteger(raw, rawAt + 32, 32, true, out, at + 5 + rGot, sSize);
    if Disjoint(out, at, 5 + rSize + sSize, raw, rawAt, 64) {
      SpliceAppend(was, at, SigHeader(n), RTlv(sig));
      SpliceAppend(was, at, SigHeader(n) + RTlv(sig), STlv(sig));
    }
  }

  /** atcacert_der_dec_ecdsa_sig_value; raw is null when the caller only wants the size. */
  method DecSig(der: array<byte>, at: nat, size: nat, raw: array?<byte>, rawAt: nat) returns (st: Status, newSize: nat)
    requires at + size <= der.Length
    requires raw != null ==> rawAt + 64 <= raw.Length && raw != der
    modifies if raw == null then {} else {raw}
    ensures var r := DecodeSig(old(der[at..at + size]));
            && st == r.Code()
            && newSize == (if r.Success? then r.value.1 else size)
            && (raw != null && r.Success? ==> raw[rawAt..rawAt + 64] == r.value.0)
    ensures raw != null ==>
              forall i :: 0 <= i < raw.Length && !(rawAt <= i < rawAt + 64) ==> raw[i] == old(raw[i])
  {
    hide DecodeInteger, DecodePair, DecodeHeaders;
    newSize := size;
    ghost var s: seq<byte> := der[at..at + size];
    var bits, items, cur;
    st, bits, items, cur := DecHeaders(der, at, size);
    if st != Ok {
      return;
    }
    assert der[at + cur..at + size] == s[cur..];
    var used;
    st, used := DecPair(der, at + cur, size - cur, raw, rawAt);
    if st != Ok {
      return;
    }
    if items != used || bits != used + 3 {
      return DecodingError, size;
    }
    newSize := cur + used;
  }

  /** The first half of the decoder: the BIT STRING and SEQUENCE headers. */
  method DecHeaders(der: array<byte>, at: nat, size: nat) returns (st: Status, bits: nat, items: nat, cur: nat)
    requires at + size <= der.Length
    ensures st == DecodeHeaders(der[at..at + size]).Code()
    ensures st.Ok? ==> DecodeHeaders(der[at..at + size]) == Success((bits, items, cur))
  {
    hide DecodeLength;
    bits, items, cur := 0, 0, 0;
    if size < 1 {
      return DecodingError, 0, 0, 0;
    }
    ghost var s: seq<byte> := der[at..at + size];
    if der[at] != 0x03 {
      return DecodingError, 0, 0, 0;
    }
    cur := 1;
    var used;
    SliceOfSlice(der[..], at, size, cur, size);
    st, used, bits := DecLength(der, at + cur, size - cur);
    if st != Ok {
      return;
    }
    cur := cur + used;
    if cur + bits > size || cur >= size || der[at + cur] != 0x00 {
      return DecodingError, 0, 0, 0;
    }
    cur := cur + 1;
    if cur >= size || der[at + cur] != 0x30 {
      return DecodingError, 0, 0, 0;
    }
    cur := cur + 1;
    if cur >= size {
      return DecodingError, 0, 0, 0;
    }
    SliceOfSlice(der[..], at, size, cur, size);
    st, used, items := DecLength(der, at + cur, size - cur);
    if st != Ok {
      return;
    }
    cur := cur + used;
    if cur + items > size || cur >= size {
      return DecodingError, 0, 0, 0;
    }
  }

  /** The second half: R and S, each right-aligned in its half of the raw signature. */
  method DecPair(der: array<byte>, at: nat, size: nat, raw: array?<byte>, rawAt: nat) returns (st: Status, used: nat)
    requires at + size <= der.Length
    requires raw != null ==> rawAt + 64 <= raw.Length && raw != der
    modifies if raw == null then {} else {raw}
    ensures var p := DecodePair(old(der[at..at + size]));
            && st == p.Code()
            && (p.Success? ==> used == p.value.1)
            && (raw != null && p.Success? ==> raw[rawAt..rawAt + 64] == p.value.0)
    ensures raw != null ==>
              forall i :: 0 <= i < raw.Length && !(rawAt <= i < rawAt + 64) ==> raw[i] == old(raw[i])
  {
    hide DecodeScalar, ToRaw;
    used := 0;
    ghost var s: seq<byte> := der[at..at + size];
    var scratch := new byte[33](_ => 0);
    var rUsed, rSize;
    st, rUsed, rSize := DecScalar(der, at, size, scratch);
    if st != Ok {
      return;
    }
    if raw != null {
      Zero(raw, rawAt, 64);
    }
    st := PlaceScalar(scratch, rSize, raw, rawAt);
    if st != Ok {
      return;
    }
    if rUsed >= size {
      return DecodingError, 0;
    }
    assert der[at + rUsed..at + size] == s[rUsed..];
    var sUsed, sSize;
    st, sUsed, sSize := DecScalar(der, at + rUsed, size - rUsed, scratch);
    if st != Ok {
      return;
    }
    st := PlaceScalar(scratch, sSize, raw, rawAt + 32);
    if st != Ok {
      return;
    }
    used := rUsed + sUsed;
    if raw != null {
      assert raw[rawAt..rawAt + 64] == raw[rawAt..rawAt + 32] + raw[rawAt + 32..rawAt + 32 + 32];
    }
  }

  /** One integer of the pair, into the decoder's 33-octet scratch buffer. */
  method DecScalar(der: array<byte>, at: nat, size: nat, scratch: array<byte>) returns (st: Status, used: nat, count: nat)
    requires at + size <= der.Length && scratch.Length == 33 && scratch != der
    modifies scratch
    ensures st == DecodeScalar(der[at..at + size]).Code()
    ensures st.Ok? ==> count <= 33 && DecodeScalar(der[at..at + size]) == Success((scratch[..count], used))
  {
    hide DecodeInteger;
    st, used, count := DecInteger(der, at, size, scratch, 33);
    if st == Ok {
      assert scratch[..count] == DecodeInteger(der[at..at + size]).value.0;
    }
  }

  /** Right-aligns a decoded integer in 32 zero octets, dropping the octet that kept it positive. */
  method PlaceScalar(scratch: array<byte>, count: nat, raw: array?<byte>, at: nat) returns (st: Status)
    requires count <= 33 == scratch.Length
    requires raw != null ==> raw != scratch && at + 32 <= raw.Length && forall i :: at <= i < at + 32 ==> raw[i] == 0
    modifies if raw == null then {} else {raw}
    ensures st == ToRaw(scratch[..count]).Code()
    ensures raw != null && st.Ok? ==> raw[at..at + 32] == ToRaw(scratch[..count]).value
    ensures raw != null ==> forall i :: 0 <= i < raw.Length && !(at <= i < at + 32) ==> raw[i] == old(raw[i])
  {
    st := Ok;
    if count <= 32 {
      if raw != null {
        Memcpy(raw, at + (32 - count), scratch, 0, count);
      }
    } else {
      if scratch[0] != 0x00 {
        return DecodingError;
      }
      if raw != null {
        Memcpy(raw, at, scratch, 1, 32);
      }
      assert scratch[..33][1..] == scratch[1..33];
    }
  }

  lemma TlvsOf(raw: RawSig)
    ensures RTlv(raw) == IntegerTlv(raw[..32], true) && STlv(raw) == IntegerTlv(raw[32..], true)
    ensures SigValue(raw) == SigHeader(|RTlv(raw)| + |STlv(raw)|) + RTlv(raw) + STlv(raw)
    ensures |RTlv(raw)| <= 35 && |STlv(raw)| <= 35
    ensures forall n: nat :: n + 3 < 0x100 ==> |SigHeader(n)| == 5
  {
    TlvSize(raw[..32]);
    TlvSize(raw[32..]);
  }
}
