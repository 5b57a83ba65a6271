/**
 * When building and reading a certificate succeeds, and an example that does.
 */
module BuildSuccess {
  import opened Bytes
  import opened BigEndian
  import opened DerLength
  import opened EcdsaSig
  import opened CertDates
  import opened PosixDates
  import PosixTime
  import opened DeviceLocs
  import opened CertDef
  import opened CertElements
  import opened CompCert
  import opened CertBuild
  import opened BuildLaws
  import opened CertDevice

  /** An edit of the right size; a signature that fits the buffer and keeps the length field's width. */
  ghost predicate Accepted(def: Def, w: nat, cap: nat, e: Edit)
    requires w <= 5 && 6 <= def.signature.offset
  {
    match e
    case Put(loc, data) => loc.count == 0 || |data| == loc.count
    case Sign(sig) =>
      var size := def.signature.offset + |SigValue(sig)|;
      size <= cap && |LengthOctets(size - 1 - w)| == w
    case Fail(_) => false
  }

  ghost predicate AllAccepted(def: Def, w: nat, cap: nat, edits: seq<Edit>)
    requires w <= 5 && 6 <= def.signature.offset
  {
    forall i :: 0 <= i < |edits| ==> Accepted(def, w, cap, edits[i])
  }

  /** A certificate whose header announces it and that reaches past the place of the signature. */
  predicate Signable(def: Def, w: nat, c: seq<byte>) {
    Header(c, w) && w <= 5 && 6 <= def.signature.offset < |c|
  }

  lemma OneIff(def: Def, w: nat, c: seq<byte>, cap: nat, e: Edit)
    requires |c| <= cap < MAX_CERT && Signable(def, w, c) && EditInBody(def, e)
    ensures ApplyOne(def, c, cap, e).Success? <==> Accepted(def, w, cap, e)
    ensures ApplyOne(def, c, cap, e).Success? ==> Signable(def, w, ApplyOne(def, c, cap, e).value)
  {
    hide Header, LengthOctets, SigValue, SetSignature, Splice;
    match e {
      case Put(loc, data) =>
        if SetElement(loc, c, data).Success? {
          PutKeepsHeader(def, w, c, loc, data);
        }
      case Sign(sig) =>
        SignIff(def, w, c, cap, sig);
      case Fail(_) =>
    }
  }

  lemma SignIff(def: Def, w: nat, c: seq<byte>, cap: nat, sig: RawSig)
    requires |c| <= cap < MAX_CERT && Signable(def, w, c)
    ensures SetSignature(def, c, cap, sig).Success? <==> Accepted(def, w, cap, Sign(sig))
    ensures SetSignature(def, c, cap, sig).Success? ==> Signable(def, w, SetSignature(def, c, cap, sig).value)
  {
    hide LengthOctets, SigValue, SetSignature, Splice, CanonicalTlv, HeaderWidth;
    HeaderIsCanonical(c, w);
    ResignIff(def, c, cap, sig);
    if SetSignature(def, c, cap, sig).Success? {
      var field := LengthOctets(def.signature.offset + |SigValue(sig)| - 1 - w);
      SpliceInside(Resigned(def, c, sig), 1, field);
    }
  }

  /** On a certificate ready to be signed, a script succeeds exactly when each edit is acceptable by itself. */
  lemma {:induction false} ApplyIff(def: Def, w: nat, c: seq<byte>, cap: nat, edits: seq<Edit>)
    requires |c| <= cap < MAX_CERT && Signable(def, w, c) && EditsInBody(def, edits)
    ensures Apply(def, c, cap, edits).Success? <==> AllAccepted(def, w, cap, edits)
    decreases |edits|
  {
    hide ApplyOne, Accepted, Signable, EditInBody;
    assert w <= 5 && 6 <= def.signature.offset by { SignableMeans(def, w, c); }
    if edits != [] {
      var e, rest := edits[0], edits[1..];
      assert EditInBody(def, e);
      OneIff(def, w, c, cap, e);
      var next := ApplyOne(def, c, cap, e);
      if next.Success? {
        ApplyIff(def, w, next.value, cap, rest);
        assert forall i :: 0 < i < |edits| ==> edits[i] == rest[i - 1];
      }
    }
  }

  lemma SignableMeans(def: Def, w: nat, c: seq<byte>)
    requires Signable(def, w, c)
    ensures w <= 5 && 6 <= def.signature.offset
  {
  }

  /** The started certificate reaches past the signature's place and needs a length field as wide as the template's. */
  predicate RoomToStart(def: Def, cap: nat)
    requires WellFormed(def)
  {
    var n, w := if cap > |def.template| then |def.template| else cap, HeaderWidth(def.template);
    n > def.signature.offset && |LengthOctets(n - 1 - w)| == w
  }

  /**
   * A build that comes to a signature, or to an error, gets as far as the serial number exactly when its
   * buffer has room to start and every edit the reads ask for is acceptable.
   */
  lemma EditedIff(def: Def, env: Env, cap: nat, caKey: Option<seq<byte>>, inputs: seq<Read>)
    requires WellFormed(def) && 6 <= cap < MAX_CERT && AllComplete(inputs)
    requires var script := Script(def, env, caKey, inputs); HasSign(script) || HasFail(script)
    ensures HeaderWidth(def.template) <= 5 && 6 <= def.signature.offset
    ensures Edited(def, env, cap, caKey, inputs).Success?
            <==> RoomToStart(def, cap)
                 && AllAccepted(def, HeaderWidth(def.template), cap, Script(def, env, caKey, inputs))
  {
    hide Apply, AllEdits, LengthOctets, Unsignable, AllAccepted, HasSign, Header;
    var w, c, script := HeaderWidth(def.template), StartCert(def, cap), Script(def, env, caKey, inputs);
    BodyAfterHeader(def);
    AllEditsInBody(def, env, inputs);
    StartIsReady(def, cap);
    if RoomToStart(def, cap) {
      ApplyIff(def, w, c, cap, script);
    } else if HasFail(script) {
      FailFails(def, c, cap, script);
    } else if Apply(def, c, cap, script).Success? {
      UnsignableApply(def, c, cap, script);
    }
  }

  // ----- the generated serial number -----

  predicate GeneratesSn(def: Def) {
    !def.snSource.Stored? && def.certSn.count > 0
  }

  /**
   * What a definition's serial number needs, given the device's number if a read covered it: the right
   * size for its source, the number or a public key to hash, and a validity that can be packed.
   */
  predicate SnPossible(def: Def, sn: Option<seq<byte>>) {
    GeneratesSn(def) ==>
      match def.snSource
      case DeviceSn => sn.Some? && def.certSn.count == 10
      case SignerId => def.certSn.count == 3
      case _ =>
        && def.certSn.count <= 32 && def.expireYears <= 31
        && if def.snSource.NeedsDeviceSn() then sn.Some? else def.publicKey.count == 64
  }

  /** The certificate holds what a serial number is generated from. */
  ghost predicate HoldsSeeds(def: Def, c: seq<byte>, cc: Compressed) {
    && def.signature.offset <= |c|
    && EncodeDate(def.issueFormat, Unpack(cc[64..67]).0).Success?
    && GetElement(def.issueDate, c, def.issueFormat.Size()) == EncodeDate(def.issueFormat, Unpack(cc[64..67]).0)
    && GetElement(def.signerId, c, 4) == Success(HexOctet(cc[67]) + HexOctet(cc[68]))
  }

  /** A date that came out of a compressed certificate and went through a format can be packed again. */
  lemma IssueDatePacks(f: DateFormat, packed: seq<byte>, years: nat)
    requires |packed| == 3 && EncodeDate(f, Unpack(packed).0).Success?
    ensures var got := DecodeDate(f, EncodeDate(f, Unpack(packed).0).value);
            got.Success? && (Pack(got.value, years).Success? <==> years <= 31)
  {
    hide EncodeDate, DecodeDate, Unpack, PosixTime.IsCalendar;
    var t := Unpack(packed).0;
    DateRoundTrip(f, t);
    EncodableDatePacks(f, packed);
    PackedFields(packed);
    if !f.IsText() {
      DecodedFields(f, t);
    }
  }

  lemma PackedFields(packed: seq<byte>)
    requires |packed| == 3 && Pack(Unpack(packed).0, packed[2] % 0x20).Success?
    ensures Packable(Unpack(packed).0, 0)
  {
  }

  lemma DecodedFields(f: DateFormat, t: PosixTime.Tm)
    requires !f.IsText() && EncodeDate(f, t).Success? && Packable(t, 0)
    ensures Packable(DecodeDate(f, EncodeDate(f, t).value).value, 0)
  {
    hide PosixTime.IsCalendar, EncodePosix, DecodePosix;
    PosixRoundTrip(t, f.PosixLe?);
    DecodedYear(t, f.PosixLe?);
    CalendarFields(DecodePosix(EncodePosix(t, f.PosixLe?).value, f.PosixLe?));
  }

  lemma CalendarFields(t: PosixTime.Tm)
    requires PosixTime.IsCalendar(t)
    ensures 0 <= t.mon <= 11 && 1 <= t.mday <= 31 && 0 <= t.hour <= 23
  {
  }

  lemma DatesPossible(def: Def, c: seq<byte>, cc: Compressed)
    requires HoldsSeeds(def, c, cc)
    ensures IssueDates(def, c).Success? <==> def.expireYears <= 31
  {
    hide GetElement, EncodeDate, DecodeDate, Unpack, Pack, HexOctet;
    IssueDatePacks(def.issueFormat, cc[64..67], def.expireYears);
  }

  lemma SignerPossible(def: Def, c: seq<byte>, cc: Compressed)
    requires HoldsSeeds(def, c, cc)
    ensures GetSignerId(def, c).Success?
  {
    hide GetElement, EncodeDate, Unpack;
    HexPair(cc[67], cc[68]);
  }

  /** Generating the serial number of a certificate that holds its seeds succeeds exactly when it is possible. */
  lemma GenSnIff(def: Def, env: Env, c: seq<byte>, sn: Option<seq<byte>>, cc: Compressed)
    requires InBody(def.certSn, def) && InBody(def.publicKey, def) && (sn.Some? ==> |sn.value| == 9)
    requires GeneratesSn(def) ==> HoldsSeeds(def, c, cc)
    ensures GenSn(def, env, c, sn).Success? <==> SnPossible(def, sn)
  {
    hide IssueDates, GetSignerId, HoldsSeeds, Splice;
    if GeneratesSn(def) {
      SeedSize(def, c, cc);
      DatesPossible(def, c, cc);
      SignerPossible(def, c, cc);
    }
  }

  lemma SeedSize(def: Def, c: seq<byte>, cc: Compressed)
    requires HoldsSeeds(def, c, cc)
    ensures def.signature.offset <= |c|
  {
  }

  /** The certificate before the serial number is generated holds the seeds. */
  lemma EditedHolds(def: Def, env: Env, cap: nat, caKey: Option<seq<byte>>, inputs: seq<Read>, cc: Compressed)
    requires WellFormed(def) && CompPiecesApart(def) && 6 <= cap < MAX_CERT && AllComplete(inputs)
    requires Carries(def, inputs, cc) && Mentions(def, inputs) && Edited(def, env, cap, caKey, inputs).Success?
    ensures HoldsSeeds(def, Edited(def, env, cap, caKey, inputs).value, cc)
  {
    hide Apply, StartCert, GetElement, CanonicalTlv, CompEdits, EncodeDate, Unpack, HexOctet, Script, CompPiecesApart;
    hide Carries, Mentions, CheckDef, SigValue, SignsOnly, HasSign, EditsInBody;
    var script := Script(def, env, caKey, inputs);
    var date, hex := EncodeDate(def.issueFormat, Unpack(cc[64..67]).0), HexOctet(cc[67]) + HexOctet(cc[68]);
    ScriptSigns(def, env, cap, caKey, inputs, cc);
    IssueEncodes(def, cc);
    BodyAfterHeader(def);
    SignedEnd(def, StartCert(def, cap), cap, script, cc[..64]);
    PieceIsEdited(def, env, cap, caKey, inputs, cc, def.issueDate, date.value);
    HexSize(cc[67], cc[68]);
    PieceIsEdited(def, env, cap, caKey, inputs, cc, def.signerId, hex);
  }

  lemma HexSize(a: byte, b: byte)
    ensures |HexOctet(a) + HexOctet(b)| == 4
  {
  }

  lemma PieceIsEdited(def: Def, env: Env, cap: nat, caKey: Option<seq<byte>>, inputs: seq<Read>, cc: Compressed,
                      loc: CertLoc, data: seq<byte>)
    requires WellFormed(def) && CompPiecesApart(def) && 6 <= cap < MAX_CERT && AllComplete(inputs)
    requires Carries(def, inputs, cc) && Mentions(def, inputs) && IsPiece(def, cc, loc, data)
    requires Edited(def, env, cap, caKey, inputs).Success?
    ensures GetElement(loc, Edited(def, env, cap, caKey, inputs).value, |data|) == Success(data)
  {
    hide Apply, StartCert, GetElement, CanonicalTlv, CompEdits, AllEdits, EncodeDate, Unpack, HexOctet;
    ScriptSigns(def, env, cap, caKey, inputs, cc);
    AllHarmless(def, env, inputs, cc, loc, data);
    CompHarmless(def, cc, loc, data);
    WhatIsPutStays(def, StartCert(def, cap), cap, Script(def, env, caKey, inputs), loc, data);
  }

  lemma {:induction false} FinalSnSize(sn: Option<seq<byte>>, inputs: seq<Read>)
    requires AllComplete(inputs) && (sn.Some? ==> |sn.value| == 9)
    ensures FinalSn(sn, inputs).Some? ==> |FinalSn(sn, inputs).value| == 9
    decreases |inputs|
  {
    if inputs != [] {
      FinalSnSize(SeenSn(sn, inputs[0]), inputs[1..]);
    }
  }

  /** Reading a compressed certificate asks for a signature, or for an error. */
  lemma SignsOrFails(def: Def, env: Env, caKey: Option<seq<byte>>, inputs: seq<Read>, cc: Compressed)
    requires AllComplete(inputs) && Carries(def, inputs, cc) && Mentions(def, inputs)
    ensures var script := Script(def, env, caKey, inputs); HasSign(script) || HasFail(script)
  {
    hide Carries, Mentions, AllEdits, CheckDef;
    var script, edits := Script(def, env, caKey, inputs), CompEdits(def, cc);
    AllSigns(def, env, inputs, cc);
    FirstCompEdit(def, cc);
    assert edits[0] in edits;
    assert edits[0] in script;
    var i :| 0 <= i < |script| && script[i] == edits[0];
  }

  lemma FirstCompEdit(def: Def, cc: Compressed)
    ensures var edits := CompEdits(def, cc); edits != [] && (edits[0].Sign? || edits[0].Fail?)
  {
  }

  lemma SnPlaces(def: Def)
    requires WellFormed(def)
    ensures InBody(def.certSn, def) && InBody(def.publicKey, def)
  {
  }

  /** The room, the edits and the serial number that a whole build needs. */
  ghost predicate BuildPossible(def: Def, env: Env, cap: nat, caKey: Option<seq<byte>>, inputs: seq<Read>)
    requires WellFormed(def) && AllComplete(inputs)
  {
    BodyAfterHeader(def);
    && RoomToStart(def, cap)
    && AllAccepted(def, HeaderWidth(def.template), cap, Script(def, env, caKey, inputs))
    && SnPossible(def, FinalSn(None, inputs))
  }

  /**
   * A build that reads the compressed certificate succeeds exactly when it has room to start, every edit
   * is acceptable and the serial number is possible, whatever its source.
   */
  lemma BuildSucceedsIff(def: Def, env: Env, cap: nat, caKey: Option<seq<byte>>, inputs: seq<Read>, cc: Compressed)
    requires WellFormed(def) && 6 <= cap < MAX_CERT && AllComplete(inputs)
    requires Carries(def, inputs, cc) && Mentions(def, inputs) && (GeneratesSn(def) ==> CompPiecesApart(def))
    ensures BuildCert(def, env, cap, caKey, inputs).Success? <==> BuildPossible(def, env, cap, caKey, inputs)
  {
    hide WellFormed, Edited, BuildCert, RoomToStart, AllAccepted, Script, HasSign, CompPiecesApart, Carries, Mentions;
    hide GenSn, SnPossible, GeneratesSn;
    BodyAfterHeader(def);
    SignsOrFails(def, env, caKey, inputs, cc);
    BuildIsEditedThenSn(def, env, cap, caKey, inputs);
    EditedIff(def, env, cap, caKey, inputs);
    var edited := Edited(def, env, cap, caKey, inputs);
    if edited.Success? {
      if GeneratesSn(def) {
        EditedHolds(def, env, cap, caKey, inputs, cc);
      }
      SnPlaces(def);
      FinalSnSize(None, inputs);
      GenSnIff(def, env, edited.value, FinalSn(None, inputs), cc);
    }
  }

  // ----- an example -----

  const NOWHERE := CertLoc(0, 0)
  const NO_DEVICE_LOC := DeviceLoc(NoZone, 0, 0, 0, 0)
  const KEY_LOC := DeviceLoc(DataZone, 0, 1, 0, 64)
  const COMP_READ := DeviceLoc(DataZone, 10, 0, 0, 96)

  /**
   * A 210-octet template with an issue date, a signer ID, a 16-octet serial number hashed from the public
   * key, and the public key itself, which the element computes from slot 0; slot 10 holds the compressed
   * certificate.
   */
  function ExampleDef(): Def {
    Def(0, 0, PubKeyHash, NO_DEVICE_LOC, KEY_LOC, DeviceLoc(DataZone, 10, 0, 0, 72), Utc, Utc, 0,
        CertLoc(39, 64), CertLoc(140, 70), CertLoc(6, 13), NOWHERE, CertLoc(19, 4), CertLoc(23, 16), NOWHERE, NOWHERE,
        [], [0x30, 0x81, 207] + Zeros(207))
  }

  /** A signature of zeros, 2000-01-01, signer 0, the code of the serial number's source. */
  function ExampleComp(): Compressed {
    Zeros(64) + [0x00, 0x84, 0x00] + [0, 0, 0, 0xA0, 0]
  }

  function ExampleDevice(): Device {
    Device(_ => Zeros(64), (zone: Zone, slot: byte) => if zone.DataZone? && slot == 10 then ExampleComp() else [])
  }

  function ExampleEnv(): Env {
    Env(_ => Zeros(20), _ => Zeros(32), (_, _) => Failure(InvalidTransform))
  }

  lemma ExampleIsWellFormed()
    ensures WellFormed(ExampleDef()) && CompPiecesApart(ExampleDef()) && HeaderWidth(ExampleDef().template) == 2
  {
    hide CanonicalTlv, IsTlv, LengthOctets, DecodeLength, HeaderWidth, CompPiecesApart;
    ExampleTlv(ExampleDef().template);
    ExampleApart();
  }

  lemma ExampleApart()
    ensures CompPiecesApart(ExampleDef())
  {
  }

  lemma ExampleTlv(t: seq<byte>)
    requires t == [0x30, 0x81, 207] + Zeros(207)
    ensures CanonicalTlv(t) && HeaderWidth(t) == 2
  {
    hide LengthOctets;
    assert t[1..] == [0x81, 207] + Zeros(207);
    OneOctet(207);
    LengthRoundTrip(207, Zeros(207));
    assert t[1..3] == [0x81, 207];
  }

  lemma OneOctet(n: byte)
    requires n >= 0x80
    ensures LengthOctets(n) == [0x81, n]
  {
    assert OctetCount(n) == 1;
    assert Octets(n, 1) == [n];
  }

  lemma ExamplePlan()
    ensures Plan([], MAX_LOCS, Named(ExampleDef()), BLOCK) == Success([COMP_READ, KEY_LOC])
    ensures PlanFits(ExampleDef()) && NamedLow(ExampleDef())
  {
    hide Merge;
    var def, none: seq<DeviceLoc> := ExampleDef(), [];
    var named := [def.compCertDevLoc, NO_DEVICE_LOC, KEY_LOC];
    assert Named(def) == named;
    ExampleMerges(none, [COMP_READ]);
    assert named[1..] == [NO_DEVICE_LOC, KEY_LOC] && [NO_DEVICE_LOC, KEY_LOC][1..] == [KEY_LOC] && [KEY_LOC][1..] == [];
    assert Plan([COMP_READ], MAX_LOCS, [KEY_LOC], BLOCK) == Success([COMP_READ, KEY_LOC]);
    assert Plan([COMP_READ], MAX_LOCS, [NO_DEVICE_LOC, KEY_LOC], BLOCK) == Success([COMP_READ, KEY_LOC]);
  }

  lemma ExampleMerges(none: seq<DeviceLoc>, one: seq<DeviceLoc>)
    requires none == [] && one == [COMP_READ]
    ensures Merge(none, MAX_LOCS, ExampleDef().compCertDevLoc, BLOCK) == Success(one)
    ensures Merge(one, MAX_LOCS, NO_DEVICE_LOC, BLOCK) == Success(one)
    ensures Merge(one, MAX_LOCS, KEY_LOC, BLOCK) == Success([COMP_READ, KEY_LOC])
  {
    var loc := ExampleDef().compCertDevLoc;
    assert FirstTouch(none, loc, BLOCK) == 0;
    assert MergedEntry(none, loc, BLOCK) == COMP_READ;
    assert none + [COMP_READ] == one;
    assert one[1..] == [];
    assert FirstTouch(one, KEY_LOC, BLOCK) == 1;
    assert MergedEntry(one, KEY_LOC, BLOCK) == KEY_LOC;
    assert one + [KEY_LOC] == [COMP_READ, KEY_LOC];
  }

  lemma ExampleHolds()
    ensures Plausible(ExampleDevice())
    ensures var loc := ExampleDef().compCertDevLoc; !loc.IsNull() && Contents(ExampleDevice(), loc) == Some(ExampleComp())
  {
    assert ExampleComp()[0..72] == ExampleComp();
  }

  /** A read that covers the compressed certificate only. */
  lemma OnlyComp(def: Def, env: Env, r: Read, cc: Compressed)
    requires Complete(r) && def.elements == [] && Extract(def.compCertDevLoc, r) == Some(cc)
    requires !IsMatch(def.certSnDevLoc, r.loc) && !IsMatch(def.publicKeyDevLoc, r.loc)
    ensures ReadEdits(def, env, r) == CompEdits(def, cc)
  {
    hide CompEdits, KeyEdits, IsMatch;
    assert SnPart(def, r) == [] && KeyPart(def, env, r) == [] && CompPart(def, r) == CompEdits(def, cc);
    assert ElementEdits(env, def.elements, r) == [];
    assert [] + [] + CompEdits(def, cc) + [] == CompEdits(def, cc);
  }

  /** A read that covers the public key only. */
  lemma OnlyKey(def: Def, env: Env, r: Read, key: seq<byte>)
    requires Complete(r) && def.elements == [] && Extract(def.publicKeyDevLoc, r) == Some(key)
    requires !IsMatch(def.certSnDevLoc, r.loc) && !IsMatch(def.compCertDevLoc, r.loc)
    ensures ReadEdits(def, env, r) == KeyEdits(def, env, key)
  {
    hide CompEdits, KeyEdits, IsMatch;
    assert SnPart(def, r) == [] && KeyPart(def, env, r) == KeyEdits(def, env, key) && CompPart(def, r) == [];
    assert ElementEdits(env, def.elements, r) == [];
    assert [] + KeyEdits(def, env, key) + [] + [] == KeyEdits(def, env, key);
  }

  /** What the two reads cover. */
  lemma ExampleCovers(a: seq<byte>, b: seq<byte>)
    requires |a| == 96 && a[..72] == ExampleComp() && |b| == 64
    ensures var def, r, k := ExampleDef(), Read(COMP_READ, a), Read(KEY_LOC, b);
            && Complete(r) && Complete(k) && def.elements == []
            && Extract(def.compCertDevLoc, r) == Some(ExampleComp()) && Extract(def.publicKeyDevLoc, k) == Some(b)
            && !IsMatch(def.certSnDevLoc, r.loc) && !IsMatch(def.publicKeyDevLoc, r.loc)
            && !IsMatch(def.certSnDevLoc, k.loc) && !IsMatch(def.compCertDevLoc, k.loc)
  {
    hide ExampleComp, IsMatch, ExampleDef;
    ExampleLocs();
    FrontOf(ExampleDef().compCertDevLoc, COMP_READ, a);
    FrontOf(ExampleDef().publicKeyDevLoc, KEY_LOC, b);
    assert b[..64] == b;
  }

  lemma ExampleLocs()
    ensures var def := ExampleDef();
            && def.elements == [] && def.compCertDevLoc == DeviceLoc(DataZone, 10, 0, 0, 72) && def.publicKeyDevLoc == KEY_LOC
            && IsMatch(def.compCertDevLoc, COMP_READ) && IsMatch(def.publicKeyDevLoc, KEY_LOC)
            && !IsMatch(def.certSnDevLoc, COMP_READ) && !IsMatch(def.publicKeyDevLoc, COMP_READ)
            && !IsMatch(def.certSnDevLoc, KEY_LOC) && !IsMatch(def.compCertDevLoc, KEY_LOC)
  {
    hide Zeros;
  }

  lemma FrontOf(dest: DeviceLoc, src: DeviceLoc, data: seq<byte>)
    requires IsMatch(dest, src) && dest.offset == src.offset == 0 && |data| == src.count
    ensures dest.count <= |data| && Complete(Read(src, data)) && Extract(dest, Read(src, data)) == Some(data[..dest.count])
  {
    assert data[0..dest.count] == data[..dest.count];
  }

  lemma ExampleReads(a: seq<byte>, b: seq<byte>)
    requires |a| == 96 && a[..72] == ExampleComp() && |b| == 64
    ensures var r, k, def := Read(COMP_READ, a), Read(KEY_LOC, b), ExampleDef();
            && Complete(r) && ReadEdits(def, ExampleEnv(), r) == CompEdits(def, ExampleComp())
            && Complete(k) && ReadEdits(def, ExampleEnv(), k) == KeyEdits(def, ExampleEnv(), b)
  {
    hide ExampleDef, ExampleComp, ExampleEnv, CompEdits, KeyEdits, ReadEdits, Extract, IsMatch;
    ExampleCovers(a, b);
    OnlyComp(ExampleDef(), ExampleEnv(), Read(COMP_READ, a), ExampleComp());
    OnlyKey(ExampleDef(), ExampleEnv(), Read(KEY_LOC, b), b);
  }

  lemma ExampleCompAccepted(cap: nat)
    requires 215 <= cap < MAX_CERT
    ensures AllAccepted(ExampleDef(), 2, cap, CompEdits(ExampleDef(), ExampleComp()))
  {
    hide SigValue, EncodeDate, LengthOctets, Accepted;
    var def, cc := ExampleDef(), ExampleComp();
    assert cc[64..67] == [0x00, 0x84, 0x00];
    ExampleDate();
    var date := EncodeDate(Utc, Unpack(cc[64..67]).0);
    SignAccepted(def, cap, cc[..64]);
    PutAccepted(def, cap, def.issueDate, date.value);
    PutAccepted(def, cap, def.signerId, HexOctet(cc[67]) + HexOctet(cc[68]));
    ExampleCompEdits(def, cc, date.value);
  }

  lemma ExampleCompEdits(def: Def, cc: Compressed, date: seq<byte>)
    requires def == ExampleDef() && cc == ExampleComp() && EncodeDate(Utc, Unpack(cc[64..67]).0) == Success(date)
    ensures CompEdits(def, cc)
            == [Sign(cc[..64]), Put(def.issueDate, date), Put(def.signerId, HexOctet(cc[67]) + HexOctet(cc[68]))]
  {
    hide EncodeDate, Unpack, Expiry, HexOctet;
  }

  lemma ExampleDate()
    ensures var date := EncodeDate(Utc, Unpack([0x00, 0x84, 0x00]).0); date.Success? && |date.value| == 13
  {
  }

  lemma PutAccepted(def: Def, cap: nat, loc: CertLoc, data: seq<byte>)
    requires 6 <= def.signature.offset && (loc.count == 0 || |data| == loc.count)
    ensures Accepted(def, 2, cap, Put(loc, data))
  {
  }

  lemma SignAccepted(def: Def, cap: nat, sig: RawSig)
    requires def.signature.offset == 140 && 215 <= cap
    ensures Accepted(def, 2, cap, Sign(sig))
  {
    hide SigValue, LengthOctets;
    SigSize(sig);
    SigAtLeast(sig);
    OneOctet(def.signature.offset + |SigValue(sig)| - 3);
  }

  lemma ExampleKeyAccepted(cap: nat, b: seq<byte>)
    requires |b| == 64
    ensures AllAccepted(ExampleDef(), 2, cap, KeyEdits(ExampleDef(), ExampleEnv(), b))
  {
    hide KeyId;
  }

  /**
   * All that ReadCertLaws asks for can be met at once: the example can be read, into any buffer of 215
   * octets or more.
   */
  lemma ExampleCanBeRead(cap: nat, buf: seq<byte>)
    requires 215 <= cap < MAX_CERT && |buf| == READ_BUFFER
    ensures var def, device := ExampleDef(), ExampleDevice();
            && WellFormed(def) && PlanFits(def) && CompPiecesApart(def) && NamedLow(def) && Plausible(device)
            && Contents(device, def.compCertDevLoc) == Some(ExampleComp()) && Recoverable(def, ExampleComp())
            && ReadCert(def, ExampleEnv(), device, None, cap, buf).Success?
  {
    hide WellFormed, PlanFits, CompPiecesApart, NamedLow, Plausible, Contents, ReadCert, BuildCert, Plan, Named, Carries, Mentions;
    hide BuildPossible, ExampleDevice, ExampleEnv, FitBuffer, Inputs;
    var def, env, device := ExampleDef(), ExampleEnv(), ExampleDevice();
    ExampleIsWellFormed();
    ExamplePlan();
    ExampleHolds();
    var plan := [COMP_READ, KEY_LOC];
    ExampleInputs(buf, plan);
    var inputs := Inputs(device, plan, buf).value;
    PlanCarries(def, device, buf, ExampleComp());
    ExamplePossible(cap, inputs);
    BuildSucceedsIff(def, env, cap, None, inputs, ExampleComp());
    ReadCertIsBuild(def, env, device, None, cap, buf, BuildCert(def, env, cap, None, inputs).value);
  }

  lemma ExampleInputs(buf: seq<byte>, plan: seq<DeviceLoc>)
    requires |buf| == READ_BUFFER && plan == [COMP_READ, KEY_LOC]
    ensures FitBuffer(plan)
    ensures var inputs := Inputs(ExampleDevice(), plan, buf);
            && inputs.Success? && |inputs.value| == 2 && inputs.value[0].loc == COMP_READ && inputs.value[1].loc == KEY_LOC
            && |inputs.value[0].data| == 96 && inputs.value[0].data[..72] == ExampleComp() && |inputs.value[1].data| == 64
  {
    hide Splice;
    var device, comp := ExampleDevice(), ExampleComp();
    assert device.zone(DataZone, 10) == comp && comp[0..] == comp;
    assert ReadLoc(device, COMP_READ) == Success(comp);
    var now := Splice(buf, 0, comp);
    assert plan[1..] == [KEY_LOC] && [KEY_LOC][1..] == [];
    assert ReadLoc(device, KEY_LOC).Success?;
    var then' := Splice(now, 0, ReadLoc(device, KEY_LOC).value);
    assert Inputs(device, [], then') == Success([]);
    assert Inputs(device, [KEY_LOC], now).Success?;
    BufferFront(buf, comp, 96, 0, 72);
  }

  lemma ExamplePossible(cap: nat, inputs: seq<Read>)
    requires 215 <= cap < MAX_CERT && AllComplete(inputs)
    requires |inputs| == 2 && inputs[0].loc == COMP_READ && inputs[1].loc == KEY_LOC
    requires |inputs[0].data| == 96 && inputs[0].data[..72] == ExampleComp() && |inputs[1].data| == 64
    ensures WellFormed(ExampleDef()) && BuildPossible(ExampleDef(), ExampleEnv(), cap, None, inputs)
  {
    hide WellFormed, ExampleDef, ExampleComp, ExampleEnv, Accepted, CompEdits, KeyEdits, ReadEdits, RoomToStart, SnPossible, Script;
    var def, env := ExampleDef(), ExampleEnv();
    ExampleIsWellFormed();
    BodyAfterHeader(def);
    ExampleStarts(cap, FinalSn(None, inputs));
    ExampleReads(inputs[0].data, inputs[1].data);
    assert inputs[0] == Read(COMP_READ, inputs[0].data) && inputs[1] == Read(KEY_LOC, inputs[1].data);
    ExampleScript(inputs);
    ExampleCompAccepted(cap);
    ExampleKeyAccepted(cap, inputs[1].data);
  }

  lemma ExampleStarts(cap: nat, sn: Option<seq<byte>>)
    requires 215 <= cap < MAX_CERT
    ensures WellFormed(ExampleDef()) && RoomToStart(ExampleDef(), cap) && SnPossible(ExampleDef(), sn)
  {
    hide WellFormed, LengthOctets;
    ExampleIsWellFormed();
    OneOctet(207);
  }

  lemma ExampleScript(inputs: seq<Read>)
    requires |inputs| == 2 && AllComplete(inputs)
    ensures Script(ExampleDef(), ExampleEnv(), None, inputs)
            == ReadEdits(ExampleDef(), ExampleEnv(), inputs[0]) + ReadEdits(ExampleDef(), ExampleEnv(), inputs[1])
  {
    hide ReadEdits, ExampleDef, ExampleEnv;
    var def, env, last, rest := ExampleDef(), ExampleEnv(), inputs[1..], inputs[2..];
    assert last[1..] == rest && AllEdits(def, env, rest) == [];
    var a, b := ReadEdits(def, env, inputs[0]), ReadEdits(def, env, inputs[1]);
    assert AllEdits(def, env, last) == b + [] == b;
    assert AllEdits(def, env, inputs) == a + b;
    assert CaEdits(def, env, None) == [];
    assert [] + (a + b) == a + b;
  }
}
