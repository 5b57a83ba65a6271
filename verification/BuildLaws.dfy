/**
 * What a whole certificate build guarantees: its result does not depend on the buffer it was built in,
 * has the size that can be computed beforehand, and compresses back to what the device holds.
 */
module BuildLaws {
  import opened Bytes
  import opened DerLength
  import opened EcdsaSig
  import opened CertDates
  import opened DeviceLocs
  import opened CertDef
  import opened CertElements
  import opened CompCert
  import opened CertBuild

  /** The certificate before the serial number is generated. */
  ghost function Edited(def: Def, env: Env, cap: nat, caKey: Option<seq<byte>>, inputs: seq<Read>): (r: Result<seq<byte>>)
    requires WellFormed(def) && 6 <= cap < MAX_CERT && AllComplete(inputs)
    ensures r.Success? ==> |r.value| <= cap
  {
    Apply(def, StartCert(def, cap), cap, Script(def, env, caKey, inputs))
  }

  ghost function Script(def: Def, env: Env, caKey: Option<seq<byte>>, inputs: seq<Read>): seq<Edit>
    requires AllComplete(inputs)
  {
    CaEdits(def, env, caKey) + AllEdits(def, env, inputs)
  }

  lemma BuildIsEditedThenSn(def: Def, env: Env, cap: nat, caKey: Option<seq<byte>>, inputs: seq<Read>)
    requires WellFormed(def) && 6 <= cap < MAX_CERT && AllComplete(inputs)
    ensures BuildCert(def, env, cap, caKey, inputs) ==
            if Edited(def, env, cap, caKey, inputs).Failure? then Edited(def, env, cap, caKey, inputs)
            else GenSn(def, env, Edited(def, env, cap, caKey, inputs).value, FinalSn(None, inputs))
  {
    hide WellFormed, Apply, StartCert, GenSn, CaEdits, AllEdits;
    ApplyConcat(def, StartCert(def, cap), cap, CaEdits(def, env, caKey), AllEdits(def, env, inputs));
  }

  /** A script that succeeds after reading the compressed certificate signs, once or more, with its signature alone. */
  lemma ScriptSigns(def: Def, env: Env, cap: nat, caKey: Option<seq<byte>>, inputs: seq<Read>, cc: Compressed)
    requires WellFormed(def) && 6 <= cap < MAX_CERT && AllComplete(inputs)
    requires Carries(def, inputs, cc) && Mentions(def, inputs) && Edited(def, env, cap, caKey, inputs).Success?
    ensures var script := Script(def, env, caKey, inputs);
            && EditsInBody(def, script) && SignsOnly(script, cc[..64]) && HasSign(script)
            && CheckDef(def, cc).Success? && forall e :: e in CompEdits(def, cc) ==> e in script && !e.Fail?
  {
    hide Apply, StartCert, AllEdits, CompEdits, CheckDef, Carries, Mentions, CanonicalTlv;
    var script := Script(def, env, caKey, inputs);
    AllEditsInBody(def, env, inputs);
    AllSigns(def, env, inputs, cc);
    CompSigns(def, cc);
    if CheckDef(def, cc).Failure? {
      var e :| e in CompEdits(def, cc) && e.Fail?;
      assert e in script;
    }
    if HasFail(script) {
      FailFails(def, StartCert(def, cap), cap, script);
    }
    assert Sign(cc[..64]) in script;
    var i :| 0 <= i < |script| && script[i] == Sign(cc[..64]);
  }

  /** A build that gets as far as signing started ready for it, and keeps the header's width. */
  lemma StartedReady(def: Def, env: Env, cap: nat, caKey: Option<seq<byte>>, inputs: seq<Read>)
    requires WellFormed(def) && 6 <= cap < MAX_CERT && AllComplete(inputs)
    requires var script := Script(def, env, caKey, inputs); EditsInBody(def, script) && HasSign(script)
    requires Edited(def, env, cap, caKey, inputs).Success?
    ensures var w, c := HeaderWidth(def.template), Edited(def, env, cap, caKey, inputs).value;
            Ready(def, StartCert(def, cap)) && Header(c, w)
  {
    hide Apply, StartCert, AllEdits, WellFormed, Unsignable, EditsInBody, HasSign, LengthOctets, SigValue;
    var c, script := StartCert(def, cap), Script(def, env, caKey, inputs);
    StartIsReady(def, cap);
    if Unsignable(def, c) {
      UnsignableApply(def, c, cap, script);
    }
    HeaderStays(def, c, cap, script);
  }

  /** The start of a certificate that can take a signature. */
  predicate Ready(def: Def, c: seq<byte>)
    requires WellFormed(def)
  {
    var w, at := HeaderWidth(def.template), def.signature.offset;
    |c| > at && Header(c, w) && c[0] == def.template[0] && c[1 + w..at] == def.template[1 + w..at]
  }

  lemma {:induction false} HeaderStays(def: Def, c: seq<byte>, cap: nat, edits: seq<Edit>)
    requires WellFormed(def) && |c| <= cap < MAX_CERT && Ready(def, c) && EditsInBody(def, edits)
    requires Apply(def, c, cap, edits).Success?
    ensures Header(Apply(def, c, cap, edits).value, HeaderWidth(def.template))
  {
    hide Apply, LengthOctets, SigValue, SetSignature, SetElement, EditInBody, IsTlv;
    var w := HeaderWidth(def.template);
    forall i | 0 <= i < |edits| && edits[i].Sign? ensures def.signature.offset + |SigValue(edits[i].sig)| <= MAX_CERT - 1 {
      SigSize(edits[i].sig);
    }
    TwinApply(def, w, c, cap, c, MAX_CERT - 1, edits);
  }

  lemma SigSize(sig: RawSig)
    ensures |SigValue(sig)| <= 75
  {
  }

  /**
   * Buffer independence: once a build that read the compressed certificate succeeds in some buffer,
   * every buffer at least as large as the finished certificate gives the same certificate, whether it
   * is smaller or larger than the template and than the first buffer.
   */
  lemma BufferIndependence(def: Def, env: Env, cap1: nat, cap2: nat, caKey: Option<seq<byte>>, inputs: seq<Read>, cc: Compressed)
    requires WellFormed(def) && 6 <= cap1 < MAX_CERT && 6 <= cap2 < MAX_CERT && AllComplete(inputs)
    requires Carries(def, inputs, cc) && Mentions(def, inputs)
    requires BuildCert(def, env, cap1, caKey, inputs).Success?
    requires |BuildCert(def, env, cap1, caKey, inputs).value| <= cap2
    ensures BuildCert(def, env, cap2, caKey, inputs) == BuildCert(def, env, cap1, caKey, inputs)
  {
    hide WellFormed, Apply, StartCert, BuildCert, Script, GenSn, Carries, Mentions, EditsInBody, HasSign, SignsOnly;
    hide SigValue, LengthOctets, Ready, Header;
    var script, sig := Script(def, env, caKey, inputs), cc[..64];
    BuildIsEditedThenSn(def, env, cap1, caKey, inputs);
    BuildIsEditedThenSn(def, env, cap2, caKey, inputs);
    ScriptSigns(def, env, cap1, caKey, inputs, cc);
    StartedReady(def, env, cap1, caKey, inputs);
    BodyAfterHeader(def);
    SignedEnd(def, StartCert(def, cap1), cap1, script, sig);
    RoomyStartReady(def, cap2, Edited(def, env, cap1, caKey, inputs).value);
    StartsAreTwins(def, StartCert(def, cap1), StartCert(def, cap2));
    SignsFitBuffer(def, script, sig, cap2);
    TwinApply(def, HeaderWidth(def.template), StartCert(def, cap1), cap1, StartCert(def, cap2), cap2, script);
  }

  lemma BodyAfterHeader(def: Def)
    requires WellFormed(def)
    ensures 6 <= def.signature.offset && CanonicalTlv(def.template) && HeaderWidth(def.template) <= 5
  {
  }

  lemma SignsFitBuffer(def: Def, edits: seq<Edit>, sig: RawSig, cap: nat)
    requires SignsOnly(edits, sig) && def.signature.offset + |SigValue(sig)| <= cap
    ensures SignsFit(def, edits, cap)
  {
  }

  lemma StartsAreTwins(def: Def, c1: seq<byte>, c2: seq<byte>)
    requires WellFormed(def) && Ready(def, c1) && Ready(def, c2)
    ensures Twins(def, HeaderWidth(def.template), c1, c2)
  {
    hide Header, CanonicalTlv;
    BodyAfterHeader(def);
  }

  /** A buffer that holds the finished certificate starts ready: the header's width lies between two equal ones. */
  lemma RoomyStartReady(def: Def, cap: nat, final: seq<byte>)
    requires WellFormed(def) && 6 <= cap < MAX_CERT
    requires Header(final, HeaderWidth(def.template)) && def.signature.offset < |final| <= cap
    ensures Ready(def, StartCert(def, cap))
  {
    hide LengthOctets, StartCert, Unsignable, IsTlv;
    var w, c := HeaderWidth(def.template), StartCert(def, cap);
    StartIsReady(def, cap);
    if |c| < |def.template| {
      FieldWidthMonotone(|final| - 1 - w, |c| - 1 - w);
      FieldWidthMonotone(|c| - 1 - w, |def.template| - 1 - w);
    }
  }

  /** A finished certificate: one DER TLV that ends with the signature, and within the maximal size. */
  ghost predicate Finished(def: Def, c: seq<byte>, sig: RawSig) {
    && |c| == def.signature.offset + |SigValue(sig)| <= MaxCertSize(def)
    && c[def.signature.offset..] == SigValue(sig)
    && WellFormed(def) && Header(c, HeaderWidth(def.template))
    && GetSignature(def, c) == Success(sig) && IsTlv(c)
  }

  /**
   * The size atcacert_read_cert_size predicts from the signature alone is the size of the certificate
   * the build produces, which is one DER TLV.
   */
  lemma BuiltSize(def: Def, env: Env, cap: nat, caKey: Option<seq<byte>>, inputs: seq<Read>, cc: Compressed, c: seq<byte>)
    requires WellFormed(def) && 6 <= cap < MAX_CERT && AllComplete(inputs)
    requires Carries(def, inputs, cc) && Mentions(def, inputs)
    requires BuildCert(def, env, cap, caKey, inputs) == Success(c)
    ensures Finished(def, c, cc[..64])
  {
    hide Apply, StartCert, BuildCert, Script, Carries, Mentions, EditsInBody, HasSign, SignsOnly;
    hide SigValue, LengthOctets, Ready, Header, DecodeSig, GeneratedSn, IsTlv;
    var sig := cc[..64];
    BuildIsEditedThenSn(def, env, cap, caKey, inputs);
    ScriptSigns(def, env, cap, caKey, inputs, cc);
    StartedReady(def, env, cap, caKey, inputs);
    SignedEnd(def, StartCert(def, cap), cap, Script(def, env, caKey, inputs), sig);
    var edited := Edited(def, env, cap, caKey, inputs).value;
    SnKeepsEnds(def, env, edited, FinalSn(None, inputs), HeaderWidth(def.template), sig);
    HeaderIsCanonical(c, HeaderWidth(def.template));
    SigSize(sig);
    SigRoundTrip(sig, []);
    assert c[def.signature.offset..] == SigValue(sig) + [];
    SigAtLeast(sig);
  }

  lemma SigAtLeast(sig: RawSig)
    ensures |SigValue(sig)| >= 11
  {
  }

  /** atcacert_max_cert_size. */
  function MaxCertSize(def: Def): nat { def.signature.offset + 75 }

  lemma SnKeepsEnds(def: Def, env: Env, c: seq<byte>, sn: Option<seq<byte>>, w: nat, sig: RawSig)
    requires InBody(def.certSn, def) && w <= 5 && Header(c, w) && EndsWith(def, c, sig) && GenSn(def, env, c, sn).Success?
    ensures Header(GenSn(def, env, c, sn).value, w) && EndsWith(def, GenSn(def, env, c, sn).value, sig)
  {
    hide SigValue, LengthOctets, Header, GeneratedSn, EndsWith;
    if !def.snSource.Stored? && def.certSn.count > 0 {
      var octets := GeneratedSn(def, env, c, sn).value;
      PutKeepsHeader(def, w, c, def.certSn, octets);
      PutKeepsEnd(def, c, Put(def.certSn, octets), sig);
    }
  }

  // ----- what a build puts in the certificate stays there -----

  /** No edit disturbs the element: the others are apart from it, or write the same data. */
  ghost predicate Undisturbed(edits: seq<Edit>, loc: CertLoc, data: seq<byte>) {
    forall e :: e in edits && e.Put? ==> HarmlessPut(e, loc, data)
  }

  predicate HarmlessPut(e: Edit, loc: CertLoc, data: seq<byte>)
    requires e.Put?
  {
    e.loc.count == 0 || Apart(e.loc, loc) || (e.loc == loc && e.data == data)
  }

  lemma EditKeeps(def: Def, c: seq<byte>, cap: nat, e: Edit, loc: CertLoc, data: seq<byte>)
    requires |c| <= cap < MAX_CERT && 6 <= def.signature.offset && InBody(loc, def) && loc.count > 0
    requires e.Put? ==> HarmlessPut(e, loc, data)
    requires ApplyOne(def, c, cap, e).Success?
    ensures GetElement(loc, c, |data|) == Success(data) ==>
              GetElement(loc, ApplyOne(def, c, cap, e).value, |data|) == Success(data)
    ensures e == Put(loc, data) ==> GetElement(loc, ApplyOne(def, c, cap, e).value, |data|) == Success(data)
  {
    hide SetElement, SetSignature, SigValue, IsTlv, DecodeLength, LengthOctets;
    if e.Put? {
      ElementFraming(e.loc, c, e.data, loc);
      NoElement(e.loc, c);
    } else if e.Sign? {
      var r := ApplyOne(def, c, cap, e).value;
      SignatureIsSet(def, c, cap, e.sig);
      KeepsBody(def, c, cap, e.sig, loc);
    }
  }

  lemma KeepsBody(def: Def, c: seq<byte>, cap: nat, sig: RawSig, loc: CertLoc)
    requires |c| <= cap < MAX_CERT && 6 <= def.signature.offset && InBody(loc, def) && loc.count > 0
    requires SetSignature(def, c, cap, sig).Success?
    ensures loc.End() <= |c| && loc.End() <= |SetSignature(def, c, cap, sig).value|
    ensures SetSignature(def, c, cap, sig).value[loc.offset..loc.End()] == c[loc.offset..loc.End()]
  {
    hide SigValue, SetSignature, IsTlv, LengthOctets, DecodeLength, GetSignature;
    SignatureIsSet(def, c, cap, sig);
    SignedSizes(def, c, cap, sig);
    var r := SetSignature(def, c, cap, sig).value;
    assert r[loc.offset..loc.End()] == c[loc.offset..loc.End()];
  }

  lemma SignedSizes(def: Def, c: seq<byte>, cap: nat, sig: RawSig)
    requires |c| <= cap < MAX_CERT && SetSignature(def, c, cap, sig).Success?
    ensures def.signature.offset < |c| && def.signature.offset <= |SetSignature(def, c, cap, sig).value|
  {
  }

  lemma {:induction false} WhatIsPutStays(def: Def, c: seq<byte>, cap: nat, edits: seq<Edit>, loc: CertLoc, data: seq<byte>)
    requires |c| <= cap < MAX_CERT && 6 <= def.signature.offset && InBody(loc, def) && loc.count > 0
    requires Undisturbed(edits, loc, data) && Apply(def, c, cap, edits).Success?
    requires GetElement(loc, c, |data|) == Success(data) || Put(loc, data) in edits
    ensures GetElement(loc, Apply(def, c, cap, edits).value, |data|) == Success(data)
    decreases |edits|
  {
    hide ApplyOne, GetElement, InBody, HarmlessPut;
    if edits != [] {
      assert edits[0] in edits;
      EditKeeps(def, c, cap, edits[0], loc, data);
      WhatIsPutStays(def, ApplyOne(def, c, cap, edits[0]).value, cap, edits[1..], loc, data);
    }
  }

  /**
   * Every element a build writes is in the finished certificate, provided the definition keeps it apart
   * from the others and from a generated serial number.
   */
  lemma BuiltHolds(def: Def, env: Env, cap: nat, caKey: Option<seq<byte>>, inputs: seq<Read>, loc: CertLoc, data: seq<byte>)
    requires WellFormed(def) && 6 <= cap < MAX_CERT && AllComplete(inputs)
    requires InBody(loc, def) && loc.count > 0 && (Apart(def.certSn, loc) || def.snSource.Stored?)
    requires Put(loc, data) in Script(def, env, caKey, inputs) && Undisturbed(Script(def, env, caKey, inputs), loc, data)
    requires BuildCert(def, env, cap, caKey, inputs).Success?
    ensures GetElement(loc, BuildCert(def, env, cap, caKey, inputs).value, |data|) == Success(data)
  {
    hide Apply, StartCert, BuildCert, Script, Undisturbed, InBody, GetElement, CanonicalTlv;
    BuildIsEditedThenSn(def, env, cap, caKey, inputs);
    WhatIsPutStays(def, StartCert(def, cap), cap, Script(def, env, caKey, inputs), loc, data);
    SnKeeps(def, env, Edited(def, env, cap, caKey, inputs).value, FinalSn(None, inputs), loc, |data|);
  }

  lemma SnKeeps(def: Def, env: Env, c: seq<byte>, sn: Option<seq<byte>>, loc: CertLoc, n: nat)
    requires (Apart(def.certSn, loc) || def.snSource.Stored?) && GenSn(def, env, c, sn).Success?
    ensures GetElement(loc, GenSn(def, env, c, sn).value, n) == GetElement(loc, c, n)
  {
    hide GetElement, GeneratedSn;
    if !def.snSource.Stored? && def.certSn.count > 0 {
      ElementFraming(def.certSn, c, GeneratedSn(def, env, c, sn).value, loc);
    }
  }

  // ----- the rebuilt certificate compresses to what the device holds -----

  /** The location shares no octet with any element other than the issue date and the signer ID. */
  ghost predicate ApartFromRest(def: Def, loc: CertLoc) {
    && Apart(def.publicKey, loc) && Apart(def.subjKeyId, loc) && Apart(def.authKeyId, loc)
    && Apart(def.certSn, loc) && Apart(def.expireDate, loc)
    && forall e :: e in def.elements && !e.deviceLoc.IsNull() ==> Apart(e.certLoc, loc)
  }

  /** The issue date and the signer ID exist and share no octet with anything a build writes. */
  ghost predicate CompPiecesApart(def: Def) {
    && def.issueDate.count > 0 && def.signerId.count > 0 && Apart(def.issueDate, def.signerId)
    && ApartFromRest(def, def.issueDate) && ApartFromRest(def, def.signerId)
  }

  /** The two pieces of a compressed certificate that are kept as ordinary elements. */
  predicate IsPiece(def: Def, cc: Compressed, loc: CertLoc, data: seq<byte>) {
    || (loc == def.issueDate && EncodeDate(def.issueFormat, Unpack(cc[64..67]).0) == Success(data))
    || (loc == def.signerId && data == HexOctet(cc[67]) + HexOctet(cc[68]))
  }

  lemma CompHarmless(def: Def, cc: Compressed, loc: CertLoc, data: seq<byte>)
    requires CompPiecesApart(def) && IsPiece(def, cc, loc, data)
    ensures Undisturbed(CompEdits(def, cc), loc, data)
    ensures CheckDef(def, cc).Success? && !HasFail(CompEdits(def, cc)) ==> Put(loc, data) in CompEdits(def, cc)
  {
    hide EncodeDate, Unpack, Expiry, CheckDef, HexOctet;
  }

  lemma OtherEditsHarmless(def: Def, env: Env, r: Read, loc: CertLoc, data: seq<byte>)
    requires Complete(r) && ApartFromRest(def, loc)
    ensures Undisturbed(SnPart(def, r), loc, data) && Undisturbed(ElementEdits(env, def.elements, r), loc, data)
    ensures forall d :: Undisturbed(KeyEdits(def, env, d), loc, data)
  {
    hide Extract, KeyId;
    ElementsHarmless(env, def.elements, r, loc, data);
  }

  lemma {:induction false} ElementsHarmless(env: Env, elements: seq<Element>, r: Read, loc: CertLoc, data: seq<byte>)
    requires Complete(r)
    requires forall e :: e in elements && !e.deviceLoc.IsNull() ==> Apart(e.certLoc, loc)
    ensures Undisturbed(ElementEdits(env, elements, r), loc, data)
  {
    hide Transformed, SameRegion, Apart;
    if elements != [] {
      ElementsHarmless(env, elements[1..], r, loc, data);
      assert elements[0] in elements;
    }
  }

  lemma {:induction false} AllHarmless(def: Def, env: Env, inputs: seq<Read>, cc: Compressed, loc: CertLoc, data: seq<byte>)
    requires AllComplete(inputs) && Carries(def, inputs, cc) && CompPiecesApart(def) && IsPiece(def, cc, loc, data)
    ensures Undisturbed(AllEdits(def, env, inputs), loc, data)
  {
    hide Extract, CompEdits, KeyEdits, ElementEdits, SnPart, IsPiece, HarmlessPut, Apart;
    if inputs != [] {
      PieceIsApart(def, cc, loc, data);
      OtherEditsHarmless(def, env, inputs[0], loc, data);
      CompHarmless(def, cc, loc, data);
      AllHarmless(def, env, inputs[1..], cc, loc, data);
    }
  }

  lemma PieceIsApart(def: Def, cc: Compressed, loc: CertLoc, data: seq<byte>)
    requires CompPiecesApart(def) && IsPiece(def, cc, loc, data)
    ensures ApartFromRest(def, loc) && loc.count > 0
  {
  }

  /** A piece of the compressed certificate is in the finished certificate. */
  lemma PieceIsBuilt(def: Def, env: Env, cap: nat, caKey: Option<seq<byte>>, inputs: seq<Read>, cc: Compressed,
                     loc: CertLoc, data: seq<byte>)
    requires WellFormed(def) && CompPiecesApart(def) && 6 <= cap < MAX_CERT && AllComplete(inputs)
    requires Carries(def, inputs, cc) && Mentions(def, inputs) && IsPiece(def, cc, loc, data)
    requires BuildCert(def, env, cap, caKey, inputs).Success?
    ensures GetElement(loc, BuildCert(def, env, cap, caKey, inputs).value, |data|) == Success(data)
  {
    hide Apply, StartCert, BuildCert, GetElement, CanonicalTlv, CompEdits, AllEdits, EncodeDate, Unpack, HexOctet;
    BuildIsEditedThenSn(def, env, cap, caKey, inputs);
    ScriptSigns(def, env, cap, caKey, inputs, cc);
    AllHarmless(def, env, inputs, cc, loc, data);
    CompHarmless(def, cc, loc, data);
    BuiltHolds(def, env, cap, caKey, inputs, loc, data);
  }

  /**
   * The certificate rebuilt from a device compresses back to exactly the compressed certificate the
   * device holds, whatever else was read and written on the way, when those 72 octets are recoverable
   * at all.
   */
  lemma RebuiltCompresses(def: Def, env: Env, cap: nat, caKey: Option<seq<byte>>, inputs: seq<Read>, cc: Compressed)
    requires WellFormed(def) && CompPiecesApart(def) && 6 <= cap < MAX_CERT && AllComplete(inputs)
    requires Carries(def, inputs, cc) && Mentions(def, inputs)
    requires BuildCert(def, env, cap, caKey, inputs).Success?
    ensures GetCompCert(def, BuildCert(def, env, cap, caKey, inputs).value) == Success(cc) <==> Recoverable(def, cc)
  {
    hide WellFormed, BuildCert, GetCompCert, GetElement, GetSignature, CompEdits, EncodeDate, Unpack, HexOctet, OctetOfHex;
    hide CompPiecesApart, Carries, Mentions, Recoverable, CheckDef, IsTlv, SigValue, Script;
    var c := BuildCert(def, env, cap, caKey, inputs).value;
    var date, hex := EncodeDate(def.issueFormat, Unpack(cc[64..67]).0), HexOctet(cc[67]) + HexOctet(cc[68]);
    BuildIsEditedThenSn(def, env, cap, caKey, inputs);
    ScriptSigns(def, env, cap, caKey, inputs, cc);
    BuiltSize(def, env, cap, caKey, inputs, cc, c);
    IssueEncodes(def, cc);
    PieceIsBuilt(def, env, cap, caKey, inputs, cc, def.issueDate, date.value);
    PieceIsBuilt(def, env, cap, caKey, inputs, cc, def.signerId, hex);
    HexPair(cc[67], cc[68]);
    assert cc[67..69] == [cc[67], cc[68]];
    CollectIff(def, c, cc);
  }

  lemma IssueEncodes(def: Def, cc: Compressed)
    requires CompPiecesApart(def) && CheckDef(def, cc).Success? && forall e :: e in CompEdits(def, cc) ==> !e.Fail?
    ensures EncodeDate(def.issueFormat, Unpack(cc[64..67]).0).Success?
  {
    hide EncodeDate, Unpack, Expiry, CheckDef, HexOctet, Apart;
    var date := EncodeDate(def.issueFormat, Unpack(cc[64..67]).0);
    DateEditIn(def.issueDate, date);
    assert forall e :: e in DateEdit(def.issueDate, date) ==> e in CompEdits(def, cc);
  }

  lemma DateEditIn(loc: CertLoc, date: Result<seq<byte>>)
    requires loc.count > 0
    ensures date.Failure? ==> exists e :: e in DateEdit(loc, date) && e.Fail?
  {
    if date.Failure? {
      assert Fail(date.error) in DateEdit(loc, date);
    }
  }
}
