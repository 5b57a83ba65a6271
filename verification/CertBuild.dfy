/**
 * Rebuilding a certificate from what is read off the device: atcacert_cert_build_start, _process and
 * _finish of src/cryptoauthlib/lib/atcacert/atcacert_def.c.
 *
 * What one device read does to the certificate depends on the read alone, so it is described as a
 * script of edits. The certificate and the size of the buffer enter only when the script is applied.
 */
module CertBuild {
  import opened Bytes
  import opened DerLength
  import opened EcdsaSig
  import opened CertDates
  import opened DeviceLocs
  import opened CertDef
  import opened CertElements
  import opened CompCert

  /** One change to the certificate, or the error the C code returns at that point. */
  datatype Edit = Put(loc: CertLoc, data: seq<byte>) | Sign(sig: RawSig) | Fail(error: Error)

  function ApplyOne(def: Def, cert: seq<byte>, cap: nat, e: Edit): (r: Result<seq<byte>>)
    requires |cert| <= cap < MAX_CERT
    ensures r.Success? ==> |r.value| <= cap
  {
    match e
    case Put(loc, data) => SetElement(loc, cert, data)
    case Sign(sig) => SetSignature(def, cert, cap, sig)
    case Fail(error) => Failure(error)
  }

  function Apply(def: Def, cert: seq<byte>, cap: nat, edits: seq<Edit>): (r: Result<seq<byte>>)
    requires |cert| <= cap < MAX_CERT
    ensures r.Success? ==> |r.value| <= cap
    decreases |edits|
  {
    if edits == [] then Success(cert)
    else
      var next :- ApplyOne(def, cert, cap, edits[0]);
      Apply(def, next, cap, edits[1..])
  }

  lemma {:induction false} ApplyConcat(def: Def, cert: seq<byte>, cap: nat, a: seq<Edit>, b: seq<Edit>)
    requires |cert| <= cap < MAX_CERT
    ensures Apply(def, cert, cap, a + b)
            == if Apply(def, cert, cap, a).Failure? then Apply(def, cert, cap, a)
               else Apply(def, Apply(def, cert, cap, a).value, cap, b)
    decreases |a|
  {
    hide ApplyOne;
    if a == [] {
      assert a + b == b;
    } else {
      assert (a + b)[0] == a[0] && (a + b)[1..] == a[1..] + b;
      var next := ApplyOne(def, cert, cap, a[0]);
      if next.Success? {
        ApplyConcat(def, next.value, cap, a[1..], b);
      }
    }
  }

  // ----- what one device read asks for -----

  /** Data read from one region of the device. */
  datatype Read = Read(loc: DeviceLoc, data: seq<byte>)

  predicate Complete(r: Read) {
    |r.data| >= r.loc.count
  }

  /** dest's part of the data, if the read covers it. */
  function Extract(dest: DeviceLoc, r: Read): (d: Option<seq<byte>>)
    requires Complete(r)
    ensures d.Some? ==> |d.value| == dest.count
  {
    if IsMatch(dest, r.loc) then Some(r.data[dest.offset - r.loc.offset..dest.End() - r.loc.offset]) else None
  }

  /** The key identifier of RFC 5280 section 4.2.1.2: the hash of the uncompressed point. */
  function KeyId(env: Env, key: seq<byte>): Digest20 {
    env.sha1([0x04] + key)
  }

  function KeyEdits(def: Def, env: Env, d: seq<byte>): seq<Edit> {
    if |d| == 72 then
      var key := d[4..36] + d[40..72];
      [Put(def.publicKey, key), Put(def.subjKeyId, KeyId(env, key))]
    else if |d| == 64 then [Put(def.publicKey, d), Put(def.subjKeyId, KeyId(env, d))]
    else [Fail(BadCert)]
  }

  function DateEdit(loc: CertLoc, date: Result<seq<byte>>): seq<Edit> {
    if loc.count == 0 then [] else if date.Failure? then [Fail(date.error)] else [Put(loc, date.value)]
  }

  function CompEdits(def: Def, d: seq<byte>): seq<Edit> {
    if |d| != 72 then [Fail(BadCert)]
    else if CheckDef(def, d).Failure? then [Fail(CheckDef(def, d).error)]
    else
      var (issue, years) := Unpack(d[64..67]);
      [Sign(d[..64])]
      + DateEdit(def.issueDate, EncodeDate(def.issueFormat, issue))
      + DateEdit(def.expireDate, EncodeDate(def.expireFormat, Expiry(def.expireFormat, issue, years)))
      + [Put(def.signerId, HexOctet(d[67]) + HexOctet(d[68]))]
  }

  /**
   * An element's data after its transforms; without any, as many octets as the certificate holds, which
   * a well-formed definition keeps within what the device location holds.
   */
  function Transformed(env: Env, e: Element, d: seq<byte>): Result<seq<byte>> {
    if e.transform1 == 0 then Success(if e.certLoc.count <= |d| then d[..e.certLoc.count] else d)
    else
      var once :- env.transform(e.transform1, d);
      if e.transform2 == 0 then Success(once) else env.transform(e.transform2, once)
  }

  function ElementEdits(env: Env, elements: seq<Element>, r: Read): seq<Edit>
    requires Complete(r)
  {
    if elements == [] then []
    else
      var e := elements[0];
      (match Extract(e.deviceLoc, r)
       case None => []
       case Some(d) =>
         var t := Transformed(env, e, d);
         if t.Failure? then [Fail(t.error)] else [Put(e.certLoc, t.value)])
      + ElementEdits(env, elements[1..], r)
  }

  function SnPart(def: Def, r: Read): seq<Edit>
    requires Complete(r)
  {
    match Extract(def.certSnDevLoc, r) case None => [] case Some(d) => [Put(def.certSn, d)]
  }

  function KeyPart(def: Def, env: Env, r: Read): seq<Edit>
    requires Complete(r)
  {
    match Extract(def.publicKeyDevLoc, r) case None => [] case Some(d) => KeyEdits(def, env, d)
  }

  function CompPart(def: Def, r: Read): seq<Edit>
    requires Complete(r)
  {
    match Extract(def.compCertDevLoc, r) case None => [] case Some(d) => CompEdits(def, d)
  }

  function ReadEdits(def: Def, env: Env, r: Read): seq<Edit>
    requires Complete(r)
  {
    SnPart(def, r) + KeyPart(def, env, r) + CompPart(def, r) + ElementEdits(env, def.elements, r)
  }

  const DeviceSnLoc: DeviceLoc := DeviceLoc(ConfigZone, 0, 0, 0, 13)

  /** The nine-octet device serial number: configuration octets 0-3 and 8-12. */
  function SeenSn(sn: Option<seq<byte>>, r: Read): Option<seq<byte>>
    requires Complete(r)
  {
    match Extract(DeviceSnLoc, r) case None => sn case Some(d) => Some(d[..4] + d[8..13])
  }

  // ----- a whole build -----

  predicate InBody(loc: CertLoc, def: Def) {
    loc.count == 0 || (6 <= loc.offset && loc.End() <= def.signature.offset)
  }

  /** The template is one DER TLV, and every element lies between its header and its signature. */
  predicate WellFormed(def: Def) {
    && 6 <= def.signature.offset < |def.template| < MAX_CERT
    && CanonicalTlv(def.template)
    && InBody(def.publicKey, def) && InBody(def.subjKeyId, def) && InBody(def.authKeyId, def)
    && InBody(def.issueDate, def) && InBody(def.expireDate, def) && InBody(def.signerId, def) && InBody(def.certSn, def)
    && forall i :: 0 <= i < |def.elements| ==>
         && InBody(def.elements[i].certLoc, def)
         && (def.elements[i].transform1 == 0 && !def.elements[i].deviceLoc.IsNull() ==>
               def.elements[i].certLoc.count <= def.elements[i].deviceLoc.count)
  }

  /** The template, cut to the buffer if it is smaller, with the header adjusted when that is possible. */
  function StartCert(def: Def, cap: nat): (c: seq<byte>)
    requires WellFormed(def) && 6 <= cap < MAX_CERT
    ensures 6 <= |c| <= cap
  {
    var blank := if cap > |def.template| then def.template else def.template[..cap];
    var adjusted := AdjustedLength(blank[1..], |blank| - |def.template|);
    if adjusted.Failure? then blank
    else AdjustedWidth(blank[1..], |blank| - |def.template|); Splice(blank, 1, LengthOctets(adjusted.value.0))
  }

  function CaEdits(def: Def, env: Env, caKey: Option<seq<byte>>): seq<Edit> {
    if caKey.None? then [] else [Put(def.authKeyId, KeyId(env, caKey.value))]
  }

  ghost predicate AllComplete(inputs: seq<Read>) {
    forall i :: 0 <= i < |inputs| ==> Complete(inputs[i])
  }

  /** Everything the reads ask for, in order. */
  ghost function AllEdits(def: Def, env: Env, inputs: seq<Read>): seq<Edit>
    requires AllComplete(inputs)
  {
    if inputs == [] then [] else ReadEdits(def, env, inputs[0]) + AllEdits(def, env, inputs[1..])
  }

  ghost function FinalSn(sn: Option<seq<byte>>, inputs: seq<Read>): Option<seq<byte>>
    requires AllComplete(inputs)
    decreases |inputs|
  {
    if inputs == [] then sn else FinalSn(SeenSn(sn, inputs[0]), inputs[1..])
  }

  /** The serial number's leading octet: positive, and for the current schemes never trimmable. */
  function MaskSn(source: SnSource, hash: Digest32): (m: seq<byte>)
    ensures |m| == 32
  {
    var first := if source.PubKeyHashRaw? || source.DeviceSnHashRaw? then hash[0] else hash[0] % 0x80;
    var lead := if (source.PubKeyHash? || source.DeviceSnHash?) && first / 0x40 % 2 == 0 then first + 0x40 else first;
    [lead] + hash[1..]
  }

  /** The serial number octets a definition generates, given the finished certificate. */
  function GeneratedSn(def: Def, env: Env, cert: seq<byte>, sn: Option<seq<byte>>): Result<seq<byte>> {
    match def.snSource
    case DeviceSn => if sn.None? then Failure(BadParams) else Success([0x40] + sn.value)
    case SignerId =>
      var id :- GetSignerId(def, cert);
      Success([0x40] + id)
    case _ =>
      var seed :- SnSeed(def, cert, sn);
      var dates :- IssueDates(def, cert);
      Success(MaskSn(def.snSource, env.sha256(seed + dates))[..def.certSn.count])
  }

  /** What a hashed serial number hashes before the dates: the device's number or the subject's key. */
  function SnSeed(def: Def, cert: seq<byte>, sn: Option<seq<byte>>): (r: Result<seq<byte>>)
    ensures r.Success? ==> def.certSn.count <= 32
  {
    if def.snSource.NeedsDeviceSn() && sn.None? then Failure(BadParams)
    else if def.certSn.count > 32 then Failure(UnexpectedElemSize)
    else if def.snSource.NeedsDeviceSn() then Success(sn.value)
    else GetElement(def.publicKey, cert, 64)
  }

  function IssueDates(def: Def, cert: seq<byte>): Result<seq<byte>> {
    var issue :- GetDate(def.issueDate, def.issueFormat, cert);
    Pack(issue, def.expireYears)
  }

  /** atcacert_gen_cert_sn. */
  function GenSn(def: Def, env: Env, cert: seq<byte>, sn: Option<seq<byte>>): (r: Result<seq<byte>>)
    ensures r.Success? ==> |r.value| == |cert|
  {
    if def.snSource.Stored? || def.certSn.count == 0 then Success(cert)
    else
      var octets :- GeneratedSn(def, env, cert, sn);
      SetElement(def.certSn, cert, octets)
  }

  /** Start, process every read, finish. */
  ghost function BuildCert(def: Def, env: Env, cap: nat, caKey: Option<seq<byte>>, inputs: seq<Read>): Result<seq<byte>>
    requires WellFormed(def) && 6 <= cap < MAX_CERT && AllComplete(inputs)
  {
    var started :- Apply(def, StartCert(def, cap), cap, CaEdits(def, env, caKey));
    var edited :- Apply(def, started, cap, AllEdits(def, env, inputs));
    GenSn(def, env, edited, FinalSn(None, inputs))
  }

  // ----- two builds into different buffers -----

  /** A width-w length field that announces exactly the octets after it. */
  predicate Header(c: seq<byte>, w: nat) {
    1 + w <= |c| < MAX_CERT && |LengthOctets(|c| - 1 - w)| == w && c[1..1 + w] == LengthOctets(|c| - 1 - w)
  }

  lemma HeaderIsCanonical(c: seq<byte>, w: nat)
    requires Header(c, w)
    ensures CanonicalTlv(c) && HeaderWidth(c) == w
  {
    hide LengthOctets, DecodeLength;
    LengthRoundTrip(|c| - 1 - w, c[1 + w..]);
    assert c[1..] == LengthOctets(|c| - 1 - w) + c[1 + w..];
  }

  /** Both could still take a signature, and differ at most in header length and old signature. */
  predicate Twins(def: Def, w: nat, c1: seq<byte>, c2: seq<byte>) {
    && Header(c1, w) && Header(c2, w) && w <= 5
    && 6 <= def.signature.offset < |c1| && def.signature.offset < |c2|
    && c1[0] == c2[0] && c1[1 + w..def.signature.offset] == c2[1 + w..def.signature.offset]
  }

  predicate EditInBody(def: Def, e: Edit) {
    e.Put? ==> InBody(e.loc, def)
  }

  ghost predicate EditsInBody(def: Def, edits: seq<Edit>) {
    forall i :: 0 <= i < |edits| ==> EditInBody(def, edits[i])
  }

  /** Every signature the script sets fits the buffer. */
  ghost predicate SignsFit(def: Def, edits: seq<Edit>, cap: nat) {
    forall i :: 0 <= i < |edits| && edits[i].Sign? ==> def.signature.offset + |SigValue(edits[i].sig)| <= cap
  }

  ghost predicate HasSign(edits: seq<Edit>) {
    exists i :: 0 <= i < |edits| && edits[i].Sign?
  }

  lemma PutKeepsHeader(def: Def, w: nat, c: seq<byte>, loc: CertLoc, data: seq<byte>)
    requires Header(c, w) && w <= 5 && InBody(loc, def) && SetElement(loc, c, data).Success?
    ensures Header(SetElement(loc, c, data).value, w)
  {
    hide LengthOctets;
    var r := SetElement(loc, c, data).value;
    ElementFraming(loc, c, data, loc);
    assert r[1..1 + w] == c[1..1 + w];
  }

  lemma TwinPut(def: Def, w: nat, c1: seq<byte>, c2: seq<byte>, loc: CertLoc, data: seq<byte>)
    requires Twins(def, w, c1, c2) && InBody(loc, def) && SetElement(loc, c1, data).Success?
    ensures SetElement(loc, c2, data).Success?
    ensures Twins(def, w, SetElement(loc, c1, data).value, SetElement(loc, c2, data).value)
  {
    hide LengthOctets, Header;
    PutKeepsHeader(def, w, c1, loc, data);
    PutKeepsHeader(def, w, c2, loc, data);
    var at, r1, r2 := def.signature.offset, SetElement(loc, c1, data).value, SetElement(loc, c2, data).value;
    if loc.count > 0 {
      forall i | 1 + w <= i < at ensures r1[i] == r2[i] {
        assert c1[i] == c1[1 + w..at][i - 1 - w] == c2[1 + w..at][i - 1 - w] == c2[i];
      }
    }
  }

  lemma TwinSign(def: Def, w: nat, c1: seq<byte>, cap1: nat, c2: seq<byte>, cap2: nat, sig: RawSig)
    requires |c1| <= cap1 < MAX_CERT && |c2| <= cap2 < MAX_CERT && Twins(def, w, c1, c2)
    requires SetSignature(def, c1, cap1, sig).Success? && def.signature.offset + |SigValue(sig)| <= cap2
    ensures SetSignature(def, c2, cap2, sig) == SetSignature(def, c1, cap1, sig)
    ensures var r := SetSignature(def, c1, cap1, sig).value; Twins(def, w, r, r)
  {
    hide SigValue, SetSignature, CanonicalTlv, HeaderWidth, LengthOctets;
    HeaderIsCanonical(c1, w);
    HeaderIsCanonical(c2, w);
    ResignIff(def, c1, cap1, sig);
    ResignIff(def, c2, cap2, sig);
    var at, g1, g2 := def.signature.offset, Resigned(def, c1, sig), Resigned(def, c2, sig);
    var field := LengthOctets(at + |SigValue(sig)| - 1 - w);
    SpliceInside(g1, 1, field);
    SpliceInside(g2, 1, field);
    SpliceOutside(g1, 1, field);
    SpliceOutside(g2, 1, field);
    forall i | 0 <= i < |g1| ensures Splice(g1, 1, field)[i] == Splice(g2, 1, field)[i] {
      if 1 + w <= i < at {
        assert c1[i] == c1[1 + w..at][i - 1 - w] == c2[1 + w..at][i - 1 - w] == c2[i];
      } else if 1 <= i < 1 + w {
        assert Splice(g1, 1, field)[i] == Splice(g1, 1, field)[1..1 + w][i - 1] == field[i - 1];
        assert Splice(g2, 1, field)[i] == Splice(g2, 1, field)[1..1 + w][i - 1] == field[i - 1];
      }
    }
    assert Splice(g1, 1, field) == Splice(g2, 1, field);
  }

  lemma {:induction false} TwinApply(def: Def, w: nat, c1: seq<byte>, cap1: nat, c2: seq<byte>, cap2: nat, edits: seq<Edit>)
    requires |c1| <= cap1 < MAX_CERT && |c2| <= cap2 < MAX_CERT && Twins(def, w, c1, c2)
    requires EditsInBody(def, edits) && SignsFit(def, edits, cap2)
    requires Apply(def, c1, cap1, edits).Success?
    ensures Apply(def, c2, cap2, edits).Success?
    ensures Twins(def, w, Apply(def, c1, cap1, edits).value, Apply(def, c2, cap2, edits).value)
    ensures c1 == c2 || HasSign(edits) ==> Apply(def, c2, cap2, edits) == Apply(def, c1, cap1, edits)
    decreases |edits|
  {
    hide Twins, SetElement, SetSignature, SigValue, EditInBody;
    if edits != [] {
      var e, rest := edits[0], edits[1..];
      assert EditInBody(def, e);
      if e.Put? {
        PutInBody(def, e);
        TwinPut(def, w, c1, c2, e.loc, e.data);
      } else if e.Sign? {
        TwinSign(def, w, c1, cap1, c2, cap2, e.sig);
      }
      var n1, n2 := ApplyOne(def, c1, cap1, e).value, ApplyOne(def, c2, cap2, e).value;
      TwinApply(def, w, n1, cap1, n2, cap2, rest);
      if HasSign(edits) && !e.Sign? {
        var i :| 0 <= i < |edits| && edits[i].Sign?;
        assert rest[i - 1].Sign?;
      }
    }
  }

  lemma PutInBody(def: Def, e: Edit)
    requires e.Put? && EditInBody(def, e)
    ensures InBody(e.loc, def)
  {
  }

  // ----- certificates that cannot take a signature any more -----

  /** Too short to hold the signature, or with a header that still announces the longer template. */
  predicate Unsignable(def: Def, c: seq<byte>)
    requires WellFormed(def)
  {
    var w := HeaderWidth(def.template);
    |c| <= def.signature.offset || (|c| < |def.template| && c[1..1 + w] == def.template[1..1 + w])
  }

  lemma UnsignableSign(def: Def, c: seq<byte>, cap: nat, sig: RawSig)
    requires WellFormed(def) && |c| <= cap < MAX_CERT && Unsignable(def, c)
    ensures SetSignature(def, c, cap, sig).Failure?
  {
    hide SigValue, LengthOctets, DecodeLength, Splice;
    var at, w := def.signature.offset, HeaderWidth(def.template);
    if |c| > at && |SigValue(sig)| <= cap - at {
      var grown, len := Resigned(def, c, sig), |def.template| - 1 - w;
      assert grown[1..1 + w] == LengthOctets(len) by { assert grown[1..1 + w] == c[1..1 + w]; }
      assert grown[1..] == LengthOctets(len) + grown[1 + w..];
      AdjustCanonicalField(len, grown[1 + w..], |SigValue(sig)| - (|c| - at));
    }
  }

  lemma {:induction false} UnsignableApply(def: Def, c: seq<byte>, cap: nat, edits: seq<Edit>)
    requires WellFormed(def) && |c| <= cap < MAX_CERT && Unsignable(def, c) && EditsInBody(def, edits)
    requires Apply(def, c, cap, edits).Success?
    ensures !HasSign(edits)
    decreases |edits|
  {
    hide SetElement, SetSignature, Unsignable, WellFormed, EditInBody;
    if edits != [] {
      var e, rest := edits[0], edits[1..];
      assert EditInBody(def, e);
      if e.Sign? {
        UnsignableSign(def, c, cap, e.sig);
      } else {
        PutInBodyKeeps(def, c, e);
        UnsignableApply(def, ApplyOne(def, c, cap, e).value, cap, rest);
        assert forall i :: 0 < i < |edits| ==> edits[i] == rest[i - 1];
      }
    }
  }

  lemma PutInBodyKeeps(def: Def, c: seq<byte>, e: Edit)
    requires WellFormed(def) && e.Put? && EditInBody(def, e) && Unsignable(def, c) && SetElement(e.loc, c, e.data).Success?
    ensures Unsignable(def, SetElement(e.loc, c, e.data).value)
  {
    hide IsTlv;
    var r, w := SetElement(e.loc, c, e.data).value, HeaderWidth(def.template);
    ElementFraming(e.loc, c, e.data, e.loc);
    if e.loc.count > 0 && |c| > def.signature.offset {
      assert forall i :: 1 <= i < 1 + w ==> r[i] == c[i];
      assert r[1..1 + w] == c[1..1 + w];
    }
  }

  /** The adjustment a start makes: it fails exactly when the length field would get narrower. */
  lemma AdjustBlank(def: Def, blank: seq<byte>)
    requires WellFormed(def) && def.signature.offset < |blank| && blank <= def.template
    ensures var w, len := HeaderWidth(def.template), |blank| - 1 - HeaderWidth(def.template);
            && 0 <= len && blank[1..1 + w] == def.template[1..1 + w]
            && AdjustedLength(blank[1..], |blank| - |def.template|)
               == if |LengthOctets(len)| == w then Success((len, w)) else Failure(BadCert)
  {
    hide LengthOctets, IsTlv, AdjustedLength;
    var t, w := def.template, HeaderWidth(def.template);
    assert blank[1..1 + w] == t[1..1 + w];
    assert blank[1..] == LengthOctets(|t| - 1 - w) + blank[1 + w..];
    AdjustCanonicalField(|t| - 1 - w, blank[1 + w..], |blank| - |t|);
  }

  /** A started certificate is ready for a signature, or never will be. */
  lemma StartIsReady(def: Def, cap: nat)
    requires WellFormed(def) && 6 <= cap < MAX_CERT
    ensures var c, w := StartCert(def, cap), HeaderWidth(def.template);
            && |c| == (if cap > |def.template| then |def.template| else cap)
            && if |c| > def.signature.offset && |LengthOctets(|c| - 1 - w)| == w then
                 Header(c, w) && c[0] == def.template[0]
                 && c[1 + w..def.signature.offset] == def.template[1 + w..def.signature.offset]
               else Unsignable(def, c)
  {
    hide LengthOctets, IsTlv, Splice, AdjustedLength;
    var t, at, w := def.template, def.signature.offset, HeaderWidth(def.template);
    var blank := if cap > |t| then t else t[..cap];
    if |blank| > at {
      AdjustBlank(def, blank);
      if |LengthOctets(|blank| - 1 - w)| == w {
        SpliceInside(blank, 1, LengthOctets(|blank| - 1 - w));
        SpliceOutside(blank, 1, LengthOctets(|blank| - 1 - w));
      }
    }
  }

  // ----- what the reads ask for -----

  lemma ReadEditsInBody(def: Def, env: Env, r: Read)
    requires WellFormed(def) && Complete(r)
    ensures EditsInBody(def, ReadEdits(def, env, r))
  {
    hide CanonicalTlv, Extract, KeyEdits, CompEdits, ElementEdits, InBody, EditInBody;
    ElementEditsInBody(def, env, def.elements, r);
    forall d ensures EditsInBody(def, KeyEdits(def, env, d)) && EditsInBody(def, CompEdits(def, d)) {
      KeyAndCompInBody(def, env, d);
    }
    SnInBody(def, r);
  }

  lemma SnInBody(def: Def, r: Read)
    requires WellFormed(def) && Complete(r)
    ensures EditsInBody(def, SnPart(def, r))
  {
    hide CanonicalTlv, Extract;
  }

  lemma KeyAndCompInBody(def: Def, env: Env, d: seq<byte>)
    requires WellFormed(def)
    ensures EditsInBody(def, KeyEdits(def, env, d)) && EditsInBody(def, CompEdits(def, d))
  {
    hide CanonicalTlv, Unpack, Expiry, EncodeDate, KeyId, CheckDef;
  }

  lemma {:induction false} ElementEditsInBody(def: Def, env: Env, elements: seq<Element>, r: Read)
    requires Complete(r) && forall i :: 0 <= i < |elements| ==> InBody(elements[i].certLoc, def)
    ensures EditsInBody(def, ElementEdits(env, elements, r))
  {
    hide Transformed, Extract;
    if elements != [] {
      ElementEditsInBody(def, env, elements[1..], r);
    }
  }

  lemma {:induction false} AllEditsInBody(def: Def, env: Env, inputs: seq<Read>)
    requires WellFormed(def) && AllComplete(inputs)
    ensures EditsInBody(def, AllEdits(def, env, inputs))
  {
    hide WellFormed, ReadEdits, EditInBody;
    if inputs != [] {
      ReadEditsInBody(def, env, inputs[0]);
      AllEditsInBody(def, env, inputs[1..]);
    }
  }

  /** Every read of the compressed certificate returned cc. */
  ghost predicate Carries(def: Def, inputs: seq<Read>, cc: Compressed)
    requires AllComplete(inputs)
  {
    forall i :: 0 <= i < |inputs| && Extract(def.compCertDevLoc, inputs[i]).Some? ==>
                  Extract(def.compCertDevLoc, inputs[i]).value == cc
  }

  ghost predicate Mentions(def: Def, inputs: seq<Read>)
    requires AllComplete(inputs)
  {
    exists i :: 0 <= i < |inputs| && Extract(def.compCertDevLoc, inputs[i]).Some?
  }

  /** The only signature in the script. */
  ghost predicate SignsOnly(edits: seq<Edit>, sig: RawSig) {
    forall e :: e in edits && e.Sign? ==> e.sig == sig
  }

  ghost predicate HasFail(edits: seq<Edit>) {
    exists e :: e in edits && e.Fail?
  }

  lemma ReadSigns(def: Def, env: Env, r: Read, cc: Compressed)
    requires Complete(r) && (Extract(def.compCertDevLoc, r).Some? ==> Extract(def.compCertDevLoc, r).value == cc)
    ensures SignsOnly(ReadEdits(def, env, r), cc[..64])
    ensures Extract(def.compCertDevLoc, r).Some? ==> forall e :: e in CompEdits(def, cc) ==> e in ReadEdits(def, env, r)
  {
    hide Extract, CompEdits, KeyEdits, ElementEdits;
    ElementsDoNotSign(env, def.elements, r);
    CompSigns(def, cc);
    forall d ensures forall e :: e in KeyEdits(def, env, d) ==> !e.Sign? {
      KeyDoesNotSign(def, env, d);
    }
  }

  lemma KeyDoesNotSign(def: Def, env: Env, d: seq<byte>)
    ensures forall e :: e in KeyEdits(def, env, d) ==> !e.Sign?
  {
  }

  lemma CompSigns(def: Def, cc: Compressed)
    ensures SignsOnly(CompEdits(def, cc), cc[..64])
    ensures CheckDef(def, cc).Success? ==> Sign(cc[..64]) in CompEdits(def, cc)
    ensures CheckDef(def, cc).Failure? ==> HasFail(CompEdits(def, cc))
  {
    hide Unpack, Expiry, EncodeDate, CheckDef;
    if CheckDef(def, cc).Failure? {
      assert Fail(CheckDef(def, cc).error) in CompEdits(def, cc);
    }
  }

  lemma {:induction false} ElementsDoNotSign(env: Env, elements: seq<Element>, r: Read)
    requires Complete(r)
    ensures forall e :: e in ElementEdits(env, elements, r) ==> !e.Sign?
  {
    hide Transformed, Extract;
    if elements != [] {
      ElementsDoNotSign(env, elements[1..], r);
    }
  }

  /** The reads together sign with cc's signature alone, and make every change cc asks for. */
  lemma {:induction false} AllSigns(def: Def, env: Env, inputs: seq<Read>, cc: Compressed)
    requires AllComplete(inputs) && Carries(def, inputs, cc)
    ensures SignsOnly(AllEdits(def, env, inputs), cc[..64])
    ensures Mentions(def, inputs) ==> forall e :: e in CompEdits(def, cc) ==> e in AllEdits(def, env, inputs)
  {
    hide Extract, ReadEdits, CompEdits;
    if inputs != [] {
      ReadSigns(def, env, inputs[0], cc);
      AllSigns(def, env, inputs[1..], cc);
      if Mentions(def, inputs) && Extract(def.compCertDevLoc, inputs[0]).None? {
        var i :| 0 <= i < |inputs| && Extract(def.compCertDevLoc, inputs[i]).Some?;
        assert inputs[1..][i - 1] == inputs[i];
      }
    }
  }

  lemma {:induction false} FailFails(def: Def, c: seq<byte>, cap: nat, edits: seq<Edit>)
    requires |c| <= cap < MAX_CERT && HasFail(edits)
    ensures Apply(def, c, cap, edits).Failure?
    decreases |edits|
  {
    hide SetElement, SetSignature;
    var next := ApplyOne(def, c, cap, edits[0]);
    if next.Success? {
      FailFails(def, next.value, cap, edits[1..]);
    }
  }

  /** Once signed, a certificate has the size its one signature gives it, and ends with it. */
  lemma {:induction false} SignedEnd(def: Def, c: seq<byte>, cap: nat, edits: seq<Edit>, sig: RawSig)
    requires |c| <= cap < MAX_CERT && SignsOnly(edits, sig) && EditsInBody(def, edits) && 6 <= def.signature.offset
    requires Apply(def, c, cap, edits).Success?
    requires EndsWith(def, c, sig) || HasSign(edits)
    ensures EndsWith(def, Apply(def, c, cap, edits).value, sig)
    decreases |edits|
  {
    hide SetElement, SetSignature, EndsWith, EditInBody;
    if edits != [] {
      var e, rest := edits[0], edits[1..];
      assert e in edits && EditInBody(def, e);
      if e.Sign? {
        SignEnds(def, c, cap, sig);
      } else if EndsWith(def, c, sig) {
        PutKeepsEnd(def, c, e, sig);
      }
      if HasSign(edits) && !e.Sign? {
        var i :| 0 <= i < |edits| && edits[i].Sign?;
        assert rest[i - 1].Sign?;
      }
      SignedEnd(def, ApplyOne(def, c, cap, e).value, cap, rest, sig);
    }
  }

  predicate EndsWith(def: Def, c: seq<byte>, sig: RawSig) {
    |c| == def.signature.offset + |SigValue(sig)| && c[def.signature.offset..] == SigValue(sig)
  }

  lemma SignEnds(def: Def, c: seq<byte>, cap: nat, sig: RawSig)
    requires |c| <= cap < MAX_CERT && 6 <= def.signature.offset && SetSignature(def, c, cap, sig).Success?
    ensures EndsWith(def, SetSignature(def, c, cap, sig).value, sig)
  {
    hide SigValue, SetSignature, IsTlv;
    SignatureIsSet(def, c, cap, sig);
  }

  lemma PutKeepsEnd(def: Def, c: seq<byte>, e: Edit, sig: RawSig)
    requires e.Put? && EditInBody(def, e) && EndsWith(def, c, sig) && SetElement(e.loc, c, e.data).Success?
    ensures EndsWith(def, SetElement(e.loc, c, e.data).value, sig)
  {
    hide SigValue;
    var r := SetElement(e.loc, c, e.data).value;
    ElementFraming(e.loc, c, e.data, e.loc);
    assert r[def.signature.offset..] == c[def.signature.offset..];
  }
}
