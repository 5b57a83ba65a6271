/**
 * Reading and writing the pieces of a certificate: elements at fixed offsets, and the signature at
 * the end, whose size varies and is reflected in the DER length at the front.
 * src/cryptoauthlib/lib/atcacert/atcacert_def.c, lines 720-817 and 1571-1650.
 *
 * A certificate is the octets in use; the C functions keep them at the front of a larger buffer.
 */
module CertElements {
  import opened Bytes
  import opened DerLength
  import opened EcdsaSig
  import opened CertDef

  function SetElement(loc: CertLoc, cert: seq<byte>, data: seq<byte>): (r: Result<seq<byte>>)
    ensures r.Success? ==> |r.value| == |cert|
  {
    if loc.count == 0 then Success(cert)
    else if |data| != loc.count then Failure(UnexpectedElemSize)
    else if loc.offset + |data| > |cert| then Failure(ElemOutOfBounds)
    else Success(Splice(cert, loc.offset, data))
  }

  function GetElement(loc: CertLoc, cert: seq<byte>, size: nat): (r: Result<seq<byte>>)
    ensures r.Success? ==> |r.value| == size
  {
    if loc.count == 0 then Failure(ElemMissing)
    else if loc.count != size then Failure(UnexpectedElemSize)
    else if loc.End() > |cert| then Failure(ElemOutOfBounds)
    else Success(cert[loc.offset..loc.End()])
  }

  predicate Apart(a: CertLoc, b: CertLoc) {
    a.End() <= b.offset || b.End() <= a.offset
  }

  /** Reading back what was written, and what writing leaves alone. */
  lemma ElementFraming(loc: CertLoc, cert: seq<byte>, data: seq<byte>, other: CertLoc)
    requires SetElement(loc, cert, data).Success?
    ensures var r := SetElement(loc, cert, data).value;
            && (loc.count > 0 ==> GetElement(loc, r, |data|) == Success(data))
            && (Apart(loc, other) ==> forall n :: GetElement(other, r, n) == GetElement(other, cert, n))
            && (forall i :: 0 <= i < |cert| && !(loc.offset <= i < loc.End()) ==> r[i] == cert[i])
  {
    var r := SetElement(loc, cert, data).value;
    if Apart(loc, other) && other.End() <= |cert| {
      assert r[other.offset..other.End()] == cert[other.offset..other.End()];
    }
    if loc.count > 0 {
      SpliceInside(cert, loc.offset, data);
    }
  }

  /** What is written is the element's octets, and what is read is them. */
  lemma ElementOctets(loc: CertLoc, cert: seq<byte>, data: seq<byte>)
    ensures SetElement(loc, cert, data).Success?
            <==> loc.count == 0 || (|data| == loc.count && loc.offset + loc.count <= |cert|)
    ensures SetElement(loc, cert, data).Success? && loc.count > 0 ==>
              SetElement(loc, cert, data).value[loc.offset..loc.offset + loc.count] == data
    ensures GetElement(loc, cert, |data|) == Success(data)
            <==> |data| == loc.count > 0 && loc.offset + loc.count <= |cert| && cert[loc.offset..loc.offset + loc.count] == data
    ensures SetElement(loc, cert, data).Failure? ==>
              SetElement(loc, cert, data).error == if |data| != loc.count then UnexpectedElemSize else ElemOutOfBounds
    ensures GetElement(loc, cert, |data|).Failure? ==>
              GetElement(loc, cert, |data|).error
              == if loc.count == 0 then ElemMissing else if |data| != loc.count then UnexpectedElemSize else ElemOutOfBounds
  {
    hide Splice;
    if loc.count > 0 && SetElement(loc, cert, data).Success? {
      SpliceInside(cert, loc.offset, data);
    }
  }

  // ----- the signature -----

  /** The header announces exactly the octets that follow it. */
  predicate IsTlv(cert: seq<byte>) {
    cert != [] && DecodeLength(cert[1..]).Success?
    && 1 + DecodeLength(cert[1..]).value.1 + DecodeLength(cert[1..]).value.0 == |cert|
  }

  /** The certificate with a new signature, before its header is corrected. */
  function Resigned(def: Def, cert: seq<byte>, sig: RawSig): (r: seq<byte>)
    requires def.signature.offset <= |cert|
    ensures |r| == def.signature.offset + |SigValue(sig)|
  {
    cert[..def.signature.offset] + SigValue(sig)
  }

  function SetSignature(def: Def, cert: seq<byte>, cap: nat, sig: RawSig): (r: Result<seq<byte>>)
    requires |cert| <= cap < MAX_CERT
    ensures r.Success? ==> |r.value| == def.signature.offset + |SigValue(sig)| <= cap
  {
    var at := def.signature.offset;
    if at >= |cert| then Failure(ElemOutOfBounds)
    else if |SigValue(sig)| > cap - at then Failure(BufferTooSmall)
    else FixHeader(Resigned(def, cert, sig), |SigValue(sig)| - (|cert| - at))
  }

  /** The header of a certificate that just grew by delta octets. */
  function FixHeader(grown: seq<byte>, delta: int32): (r: Result<seq<byte>>)
    requires grown != []
    ensures r.Success? ==> |r.value| == |grown|
    ensures r.Failure? ==> r.error != BufferTooSmall
  {
    var (newLen, width) :- AdjustedLength(grown[1..], delta);
    if 1 + width + newLen != |grown| then Failure(BadCert)
    else AdjustedWidth(grown[1..], delta); Success(Splice(grown, 1, LengthOctets(newLen)))
  }

  function GetSignature(def: Def, cert: seq<byte>): Result<RawSig> {
    if def.signature.offset >= |cert| then Failure(ElemOutOfBounds)
    else
      var (sig, used) :- DecodeSig(cert[def.signature.offset..]);
      Success(sig)
  }

  /**
   * A certificate that took a new signature is one DER TLV ending with that signature; before it,
   * only the header's length field can have changed, and the signature reads back.
   */
  lemma SignatureIsSet(def: Def, cert: seq<byte>, cap: nat, sig: RawSig)
    requires |cert| <= cap < MAX_CERT && def.signature.offset >= 6
    requires SetSignature(def, cert, cap, sig).Success?
    ensures var r, at := SetSignature(def, cert, cap, sig).value, def.signature.offset;
            && IsTlv(r)
            && r[at..] == SigValue(sig)
            && GetSignature(def, r) == Success(sig)
            && r[0] == cert[0]
            && var w := DecodeLength(r[1..]).value.1;
               r[1..1 + w] == LengthOctets(|r| - 1 - w) && r[1 + w..at] == cert[1 + w..at]
    ensures forall i :: 6 <= i < def.signature.offset ==> SetSignature(def, cert, cap, sig).value[i] == cert[i]
  {
    hide FixHeader, DecodeSig, SigValue, LengthOctets, DecodeLength, GetSignature;
    var at, grown := def.signature.offset, Resigned(def, cert, sig);
    var r := SetSignature(def, cert, cap, sig).value;
    HeaderIsFixed(grown, |SigValue(sig)| - (|cert| - at));
    var w := DecodeLength(r[1..]).value.1;
    assert forall i :: 1 + w <= i < at ==> r[i] == cert[i];
    assert r[at..] == SigValue(sig);
    ReadsItself(def, r, sig);
  }

  lemma ReadsItself(def: Def, r: seq<byte>, sig: RawSig)
    requires def.signature.offset < |r| && r[def.signature.offset..] == SigValue(sig)
    ensures GetSignature(def, r) == Success(sig)
  {
    hide DecodeSig, SigValue;
    SigRoundTrip(sig, []);
    assert SigValue(sig) + [] == SigValue(sig);
  }

  lemma HeaderIsFixed(grown: seq<byte>, delta: int32)
    requires grown != [] && FixHeader(grown, delta).Success?
    ensures var r := FixHeader(grown, delta).value;
            && |r| == |grown| && IsTlv(r)
            && var w := DecodeLength(r[1..]).value.1;
               w <= 5 && r[1..1 + w] == LengthOctets(|r| - 1 - w)
               && forall i :: 0 <= i < |r| && !(1 <= i < 1 + w) ==> r[i] == grown[i]
  {
    hide DecodeLength, LengthOctets, Splice, AdjustedLength;
    var (newLen, w) := AdjustedLength(grown[1..], delta).value;
    var r := FixHeader(grown, delta).value;
    var field := LengthOctets(newLen);
    AdjustedWidth(grown[1..], delta);
    SpliceInside(grown, 1, field);
    SpliceOutside(grown, 1, field);
    assert r[1..] == field + r[1 + w..];
    LengthRoundTrip(newLen, r[1 + w..]);
  }

  lemma AdjustedWidth(s: seq<byte>, delta: int32)
    requires AdjustedLength(s, delta).Success?
    ensures |LengthOctets(AdjustedLength(s, delta).value.0)| == AdjustedLength(s, delta).value.1 <= 5
  {
  }

  /** A well-formed certificate whose length field is in its shortest form. */
  predicate CanonicalTlv(cert: seq<byte>) {
    IsTlv(cert) && var w := HeaderWidth(cert); cert[1..1 + w] == LengthOctets(|cert| - 1 - w)
  }

  function HeaderWidth(cert: seq<byte>): (w: nat)
    requires IsTlv(cert)
    ensures 1 <= w <= 5 && 1 + w <= |cert|
  {
    DecodeLength(cert[1..]).value.1
  }

  lemma FrontOf(s: seq<byte>, at: nat, tail: seq<byte>, lo: nat, hi: nat)
    requires lo <= hi <= at <= |s|
    ensures (s[..at] + tail)[lo..hi] == s[lo..hi]
  {
  }

  /**
   * On a well-formed certificate a new signature is accepted exactly when it fits the buffer and leaves
   * the length field as wide as it was; the result does not depend on the old signature's size.
   */
  lemma ResignIff(def: Def, cert: seq<byte>, cap: nat, sig: RawSig)
    requires |cert| <= cap < MAX_CERT && 6 <= def.signature.offset < |cert| && CanonicalTlv(cert)
    ensures var w, size := HeaderWidth(cert), def.signature.offset + |SigValue(sig)|;
            && (SetSignature(def, cert, cap, sig).Success? <==> size <= cap && |LengthOctets(size - 1 - w)| == w)
            && (SetSignature(def, cert, cap, sig).Success? ==>
                 SetSignature(def, cert, cap, sig).value == Splice(Resigned(def, cert, sig), 1, LengthOctets(size - 1 - w)))
  {
    hide Splice, SigValue, DecodeLength, LengthOctets;
    var at, w, grown := def.signature.offset, HeaderWidth(cert), Resigned(def, cert, sig);
    var len, delta := |cert| - 1 - w, |SigValue(sig)| - (|cert| - at);
    FrontOf(cert, at, SigValue(sig), 1, 1 + w);
    assert grown[1..1 + w] == LengthOctets(len);
    SliceSplit(grown, 1, 1 + w, |grown|);
    assert grown[1..] == LengthOctets(len) + grown[1 + w..];
    AdjustCanonicalField(len, grown[1 + w..], delta);
  }

  // ----- the C functions -----

  /** atcacert_set_cert_element. */
  method SetCertElement(loc: CertLoc, cert: array<byte>, certSize: nat, data: seq<byte>) returns (st: Status)
    requires certSize <= cert.Length
    modifies cert
    ensures st == SetElement(loc, old(cert[..certSize]), data).Code()
    ensures st.Ok? ==> cert[..certSize] == SetElement(loc, old(cert[..certSize]), data).value
    ensures !st.Ok? ==> cert[..] == old(cert[..])
  {
    if loc.count == 0 {
      return Ok;
    }
    if |data| != loc.count {
      return UnexpectedElemSize;
    }
    if loc.offset + |data| > certSize {
      return ElemOutOfBounds;
    }
    CopyInto(cert, loc.offset, data);
    st := Ok;
  }

  /** atcacert_get_cert_element. */
  method GetCertElement(loc: CertLoc, cert: array<byte>, certSize: nat, data: array<byte>, dataAt: nat, dataSize: nat)
    returns (st: Status)
    requires certSize <= cert.Length && dataAt + dataSize <= data.Length && data != cert
    modifies data
    ensures st == GetElement(loc, cert[..certSize], dataSize).Code()
    ensures st.Ok? ==> data[..] == Splice(old(data[..]), dataAt, GetElement(loc, cert[..certSize], dataSize).value)
    ensures !st.Ok? ==> data[..] == old(data[..])
  {
    if loc.count == 0 {
      return ElemMissing;
    }
    if loc.count != dataSize {
      return UnexpectedElemSize;
    }
    if loc.offset + loc.count > certSize {
      return ElemOutOfBounds;
    }
    SliceOfSlice(cert[..], 0, certSize, loc.offset, loc.offset + loc.count);
    Memcpy(data, dataAt, cert, loc.offset, dataSize);
    st := Ok;
  }

  /** atcacert_set_signature. When the buffer is too small, newSize is the size that would do. */
  method SetCertSignature(def: Def, cert: array<byte>, certSize: nat, cap: nat, sig: array<byte>, sigAt: nat)
    returns (st: Status, newSize: nat)
    requires certSize <= cap <= cert.Length && cap < MAX_CERT
    requires sigAt + 64 <= sig.Length && sig != cert
    modifies cert
    ensures var r := SetSignature(def, old(cert[..certSize]), cap, sig[sigAt..sigAt + 64]);
            && st == r.Code()
            && (st.Ok? ==> newSize == |r.value| && cert[..newSize] == r.value)
    ensures st.BufferTooSmall? ==> newSize == def.signature.offset + |SigValue(sig[sigAt..sigAt + 64])| > cap
    ensures newSize <= cap || st.BufferTooSmall?
  {
    hide SigValue, FixHeader, Resigned;
    newSize := certSize;
    if def.signature.offset >= certSize {
      return ElemOutOfBounds, newSize;
    }
    var curDerSize := certSize - def.signature.offset;
    st, newSize := PutSignature(def, cert, certSize, cap, sig, sigAt);
    if st != Ok {
      return;
    }
    st := FixCertHeader(cert, newSize, newSize - def.signature.offset - curDerSize);
  }

  /** Encodes the signature in its place, if the buffer has room for it. */
  method PutSignature(def: Def, cert: array<byte>, certSize: nat, cap: nat, sig: array<byte>, sigAt: nat)
    returns (st: Status, newSize: nat)
    requires def.signature.offset < certSize <= cap <= cert.Length
    requires sigAt + 64 <= sig.Length && sig != cert
    modifies cert
    ensures newSize == def.signature.offset + |SigValue(sig[sigAt..sigAt + 64])|
    ensures st == if newSize > cap then BufferTooSmall else Ok
    ensures st.Ok? ==> cert[..newSize] == Resigned(def, old(cert[..certSize]), sig[sigAt..sigAt + 64])
  {
    hide Splice, SigValue, Resigned;
    ghost var was: seq<byte> := cert[..];
    ghost var raw: RawSig := sig[sigAt..sigAt + 64];
    var derSize;
    st, derSize := EncSig(sig, sigAt, cert, def.signature.offset, cap - def.signature.offset);
    newSize := def.signature.offset + derSize;
    if st == Ok {
      GrownInPlace(def, was, certSize, raw, cert[..]);
    }
  }

  /** Lines 768-783 of atcacert_def.c. */
  method FixCertHeader(cert: array<byte>, size: nat, delta: int32) returns (st: Status)
    requires 0 < size <= cert.Length
    modifies cert
    ensures st == FixHeader(old(cert[..size]), delta).Code()
    ensures st.Ok? ==> cert[..size] == FixHeader(old(cert[..size]), delta).value
  {
    hide Splice, AdjustedLength, LengthOctets;
    ghost var grown: seq<byte> := cert[..size];
    ghost var was: seq<byte> := cert[..];
    SliceOfSlice(was, 0, size, 1, size);
    var width, newLen;
    st, width, newLen := AdjustLength(cert, 1, size - 1, delta);
    if st != Ok {
      return;
    }
    if 1 + width + newLen != size {
      return BadCert;
    }
    AdjustedWidth(grown[1..], delta);
    SplicePrefix(was, size, 1, LengthOctets(newLen));
  }

  lemma GrownInPlace(def: Def, was: seq<byte>, size: nat, sig: RawSig, now: seq<byte>)
    requires var at, der := def.signature.offset, SigValue(sig);
             at < size <= |was| && at + |der| <= |was| && now == Splice(was, at, der)
    ensures now[..def.signature.offset + |SigValue(sig)|] == Resigned(def, was[..size], sig)
  {
    hide SigValue;
  }

  /** Writing inside a prefix of the buffer is writing to the prefix. */
  lemma SplicePrefix(s: seq<byte>, size: nat, at: nat, data: seq<byte>)
    requires at + |data| <= size <= |s|
    ensures Splice(s, at, data)[..size] == Splice(s[..size], at, data)
  {
  }

  /** atcacert_get_signature. */
  method GetCertSignature(def: Def, cert: array<byte>, certSize: nat, sig: array<byte>, sigAt: nat) returns (st: Status)
    requires certSize <= cert.Length && sigAt + 64 <= sig.Length && sig != cert
    modifies sig
    ensures st == GetSignature(def, cert[..certSize]).Code()
    ensures st.Ok? ==> sig[sigAt..sigAt + 64] == GetSignature(def, cert[..certSize]).value
    ensures forall i :: 0 <= i < sig.Length && !(sigAt <= i < sigAt + 64) ==> sig[i] == old(sig[i])
  {
    hide DecodeSig;
    var sigOffset := def.signature.offset;
    if sigOffset >= certSize {
      return ElemOutOfBounds;
    }
    SliceOfSlice(cert[..], 0, certSize, sigOffset, certSize);
    var used;
    st, used := DecSig(cert, sigOffset, certSize - sigOffset, sig, sigAt);
  }
}
