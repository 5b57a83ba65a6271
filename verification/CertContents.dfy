/**
 * What a certificate read off a device contains, octet by octet, in terms of what the device holds:
 * atcacert_read_cert (atcacert_client.c, lines 116-177) down to the copies it makes.
 */
module CertContents {
  import opened Bytes
  import opened DerLength
  import opened DerForms
  import opened EcdsaSig
  import opened DeviceLocs
  import opened PosixTime
  import opened CertDates
  import opened CertDef
  import opened CertElements
  import opened CompCert
  import opened CompForms
  import opened CertBuild
  import opened BuildLaws
  import opened CertPlaces
  import opened CertDevice

  /** Reading a certificate off this device gave c. */
  ghost predicate Reads(def: Def, env: Env, device: Device, caKey: Option<seq<byte>>, cap: nat, buf: seq<byte>, c: seq<byte>) {
    && WellFormed(def) && PlanFits(def) && NamedLow(def) && Plausible(device)
    && 6 <= cap < MAX_CERT && |buf| == READ_BUFFER
    && ReadCert(def, env, device, caKey, cap, buf) == Success(c)
  }

  /** The device holds these octets at a location that exists. */
  ghost predicate HeldAt(device: Device, loc: DeviceLoc, held: seq<byte>) {
    !loc.IsNull() && Contents(device, loc) == Some(held)
  }

  /** The reads the plan makes. */
  ghost function PlannedReads(def: Def, device: Device, buf: seq<byte>): (inputs: seq<Read>)
    requires PlanFits(def) && |buf| == READ_BUFFER
    ensures AllComplete(inputs)
  {
    var plan := Plan([], MAX_LOCS, Named(def), BLOCK);
    if plan.Failure? || Inputs(device, plan.value, buf).Failure? then [] else Inputs(device, plan.value, buf).value
  }

  lemma ReadsAreBuilt(def: Def, env: Env, device: Device, caKey: Option<seq<byte>>, cap: nat, buf: seq<byte>, c: seq<byte>)
    requires Reads(def, env, device, caKey, cap, buf, c)
    ensures WellFormed(def) && PlanFits(def) && 6 <= cap < MAX_CERT && |buf| == READ_BUFFER
    ensures BuildCert(def, env, cap, caKey, PlannedReads(def, device, buf)) == Success(c)
  {
    hide WellFormed, PlanFits, NamedLow, Plausible, ReadCert, BuildCert, Plan, Named, Inputs, FitBuffer;
    ReadCertIsBuild(def, env, device, caKey, cap, buf, c);
  }

  /** Every location a definition names is read, and read truly. */
  lemma NamedIsRead(def: Def, env: Env, device: Device, caKey: Option<seq<byte>>, cap: nat, buf: seq<byte>, c: seq<byte>,
                    n: nat, held: seq<byte>)
    requires Reads(def, env, device, caKey, cap, buf, c)
    requires n < |Named(def)| && HeldAt(device, Named(def)[n], held)
    ensures PlanFits(def) && |buf| == READ_BUFFER
    ensures var inputs := PlannedReads(def, device, buf); AllTell(inputs, Named(def)[n], held) && SomeReads(inputs, Named(def)[n])
  {
    hide WellFormed, PlanFits, Plausible, ReadCert, BuildCert, Plan, Named, Inputs, FitBuffer, Contents, EndsLow, StepsFit, SameRegion;
    ReadCertIsBuild(def, env, device, caKey, cap, buf, c);
    PlanFitsPlan(def);
    var named, dest := Named(def), Named(def)[n];
    var plan := Plan([], MAX_LOCS, named, BLOCK).value;
    InputsAgree(device, dest, plan, buf);
    LowPlansFit([], MAX_LOCS, named, BLOCK);
    PlanIsComplete([], MAX_LOCS, named, BLOCK, n);
    var i :| 0 <= i < |plan| && IsMatch(dest, plan[i]);
    assert Extract(dest, Inputs(device, plan, buf).value[i]).Some?;
  }

  lemma PlanFitsPlan(def: Def)
    requires PlanFits(def)
    ensures var plan := Plan([], MAX_LOCS, Named(def), BLOCK); plan.Success? ==> FitBuffer(plan.value)
  {
    hide FitBuffer;
  }

  /** Where the source of a place is among the named locations. */
  lemma SourceIsNamed(def: Def, k: nat) returns (n: nat)
    requires k < |Places(def)| && k != CA_KEY_ID
    ensures n < |Named(def)| && Named(def)[n] == Source(def, k)
  {
    NamedParts(def);
    n := if k == KEY || k == KEY_ID then 2 else if FromComp(k) then 0 else if k == SERIAL then 1 else 3 + (k - FURTHER);
  }

  /** A place of the certificate holds what is due there from what the device holds. */
  lemma PlaceIsHeld(def: Def, env: Env, device: Device, caKey: Option<seq<byte>>, cap: nat, buf: seq<byte>, c: seq<byte>,
                    k: nat, held: seq<byte>)
    requires Reads(def, env, device, caKey, cap, buf, c) && Alone(def, k)
    requires if k == CA_KEY_ID then caKey == Some(held) else HeldAt(device, Source(def, k), held)
    requires k == SERIAL ==> def.snSource.Stored?
    ensures Due(def, env, k, held).Some? && Shows(c, Places(def)[k], Due(def, env, k, held).value)
  {
    hide WellFormed, PlanFits, NamedLow, Plausible, BuildCert, Due, Shows, PlannedReads, Source, Places, AllTell, SomeReads;
    ReadsAreBuilt(def, env, device, caKey, cap, buf, c);
    var inputs := PlannedReads(def, device, buf);
    if k != CA_KEY_ID {
      var n := SourceIsNamed(def, k);
      NamedIsRead(def, env, device, caKey, cap, buf, c, n, held);
    }
    BuiltShows(def, env, cap, caKey, inputs, c, k, held);
  }

  // ----- keys and their identifiers -----

  /** The sixty-four octets of a key location: all of them, or the two halves of a padded slot. */
  function KeyIn(held: seq<byte>): seq<byte>
    requires |held| == 64 || |held| == 72
  {
    if |held| == 64 then held else held[4..36] + held[40..72]
  }

  /** The public key of the certificate is the one on the device. */
  lemma KeyIsHeld(def: Def, env: Env, device: Device, caKey: Option<seq<byte>>, cap: nat, buf: seq<byte>, c: seq<byte>, held: seq<byte>)
    requires Reads(def, env, device, caKey, cap, buf, c) && HeldAt(device, def.publicKeyDevLoc, held) && Alone(def, KEY)
    ensures |held| == 64 || |held| == 72
    ensures Shows(c, def.publicKey, KeyIn(held))
  {
    hide Reads, Alone, HeldAt, Shows;
    PlaceIsHeld(def, env, device, caKey, cap, buf, c, KEY, held);
  }

  /** The subject key identifier is the SHA-1 hash of the uncompressed point (RFC 5280 section 4.2.1.2). */
  lemma KeyIdIsHash(def: Def, env: Env, device: Device, caKey: Option<seq<byte>>, cap: nat, buf: seq<byte>, c: seq<byte>, held: seq<byte>)
    requires Reads(def, env, device, caKey, cap, buf, c) && HeldAt(device, def.publicKeyDevLoc, held) && Alone(def, KEY_ID)
    ensures |held| == 64 || |held| == 72
    ensures Shows(c, def.subjKeyId, env.sha1([0x04] + KeyIn(held)))
  {
    hide Reads, Alone, HeldAt, Shows;
    PlaceIsHeld(def, env, device, caKey, cap, buf, c, KEY_ID, held);
  }

  /** So is the authority key identifier, for the caller's key. */
  lemma CaKeyIdIsHash(def: Def, env: Env, device: Device, caKey: seq<byte>, cap: nat, buf: seq<byte>, c: seq<byte>)
    requires Reads(def, env, device, Some(caKey), cap, buf, c) && Alone(def, CA_KEY_ID)
    ensures Shows(c, def.authKeyId, env.sha1([0x04] + caKey))
  {
    hide Reads, Alone, Shows;
    PlaceIsHeld(def, env, device, Some(caKey), cap, buf, c, CA_KEY_ID, caKey);
  }

  // ----- elements -----

  /** A stored serial number is the one on the device. */
  lemma StoredSerialIsHeld(def: Def, env: Env, device: Device, caKey: Option<seq<byte>>, cap: nat, buf: seq<byte>, c: seq<byte>, held: seq<byte>)
    requires Reads(def, env, device, caKey, cap, buf, c) && HeldAt(device, def.certSnDevLoc, held) && Alone(def, SERIAL)
    requires def.snSource.Stored?
    ensures Shows(c, def.certSn, held)
  {
    hide Reads, Alone, HeldAt, Shows;
    PlaceIsHeld(def, env, device, caKey, cap, buf, c, SERIAL, held);
  }

  /**
   * A further element is what the device holds, as much of it as the certificate has room for, or the
   * result of its one or two transforms.
   */
  lemma ElementIsHeld(def: Def, env: Env, device: Device, caKey: Option<seq<byte>>, cap: nat, buf: seq<byte>, c: seq<byte>,
                      i: nat, held: seq<byte>)
    requires Reads(def, env, device, caKey, cap, buf, c) && i < |def.elements| && Alone(def, FURTHER + i)
    requires HeldAt(device, def.elements[i].deviceLoc, held)
    ensures var e := def.elements[i];
            if e.transform1 == 0 then
              e.certLoc.count <= |held| && Shows(c, e.certLoc, held[..e.certLoc.count])
            else
              && env.transform(e.transform1, held).Success?
              && var once := env.transform(e.transform1, held).value;
              if e.transform2 == 0 then Shows(c, e.certLoc, once)
              else env.transform(e.transform2, once).Success? && Shows(c, e.certLoc, env.transform(e.transform2, once).value)
  {
    hide Reads, Alone, Shows, Contents, CanonicalTlv;
    PlaceIsHeld(def, env, device, caKey, cap, buf, c, FURTHER + i, held);
    HeldSizes(device, def.elements[i].deviceLoc, held);
    ElementRoom(def, env, device, caKey, cap, buf, c, i);
  }

  lemma HeldSizes(device: Device, loc: DeviceLoc, held: seq<byte>)
    requires HeldAt(device, loc, held)
    ensures |held| == loc.count
  {
  }

  lemma ElementRoom(def: Def, env: Env, device: Device, caKey: Option<seq<byte>>, cap: nat, buf: seq<byte>, c: seq<byte>, i: nat)
    requires Reads(def, env, device, caKey, cap, buf, c) && i < |def.elements|
    ensures var e := def.elements[i]; e.transform1 == 0 && !e.deviceLoc.IsNull() ==> e.certLoc.count <= e.deviceLoc.count
  {
    hide PlanFits, NamedLow, Plausible, ReadCert, CanonicalTlv, InBody;
  }

  // ----- dates and signer ID -----

  /** The issue date to the hour and the validity a compressed certificate packs. */
  function IssuedIn(cc: Compressed): Tm { Unpack(cc[64..67]).0 }

  function ValidityIn(cc: Compressed): nat { cc[66] % 0x20 }

  /** The issue date is written in its format. */
  lemma IssueDateIsHeld(def: Def, env: Env, device: Device, caKey: Option<seq<byte>>, cap: nat, buf: seq<byte>, c: seq<byte>, cc: Compressed)
    requires Reads(def, env, device, caKey, cap, buf, c) && HeldAt(device, def.compCertDevLoc, cc) && Alone(def, ISSUED)
    ensures EncodeDate(def.issueFormat, IssuedIn(cc)).Success?
    ensures Shows(c, def.issueDate, EncodeDate(def.issueFormat, IssuedIn(cc)).value)
  {
    hide Reads, Alone, HeldAt, Shows, EncodeDate, Unpack;
    PlaceIsHeld(def, env, device, caKey, cap, buf, c, ISSUED, cc);
  }

  /** The signer ID is its four upper-case hex digits. */
  lemma SignerIsHeld(def: Def, env: Env, device: Device, caKey: Option<seq<byte>>, cap: nat, buf: seq<byte>, c: seq<byte>, cc: Compressed)
    requires Reads(def, env, device, caKey, cap, buf, c) && HeldAt(device, def.compCertDevLoc, cc) && Alone(def, SIGNER)
    ensures Shows(c, def.signerId, [Hex(cc[67] / 16), Hex(cc[67] % 16), Hex(cc[68] / 16), Hex(cc[68] % 16)])
  {
    hide Reads, Alone, HeldAt, Shows;
    PlaceIsHeld(def, env, device, caKey, cap, buf, c, SIGNER, cc);
    HexForm(cc[67]);
    HexForm(cc[68]);
    assert HexOctet(cc[67]) + HexOctet(cc[68]) == [Hex(cc[67] / 16), Hex(cc[67] % 16), Hex(cc[68] / 16), Hex(cc[68] % 16)];
  }

  /** The expiry date stated in the certificate, if it can be read. */
  function Expires(def: Def, c: seq<byte>): Result<Tm> { GetDate(def.expireDate, def.expireFormat, c) }

  /** The expiry date is the issue date moved on by the validity, or the last there is. */
  lemma ExpiryIsHeld(def: Def, env: Env, device: Device, caKey: Option<seq<byte>>, cap: nat, buf: seq<byte>, c: seq<byte>, cc: Compressed)
    requires Reads(def, env, device, caKey, cap, buf, c) && HeldAt(device, def.compCertDevLoc, cc) && Alone(def, EXPIRES)
    ensures ExpiresRightly(def.expireFormat, IssuedIn(cc), ValidityIn(cc), Expires(def, c))
  {
    hide Reads, Alone, HeldAt, EncodeDate, Unpack, Expiry, ExpiresRightly, DecodeDate;
    PlaceIsHeld(def, env, device, caKey, cap, buf, c, EXPIRES, cc);
    var f, issue, years := def.expireFormat, IssuedIn(cc), ValidityIn(cc);
    UnpackedYears(cc[64..67]);
    var text := EncodeDate(f, Expiry(f, issue, years));
    assert text.Success? && Shows(c, def.expireDate, text.value);
    ShownIsGot(def.expireDate, c, text.value);
    AloneExists(def, EXPIRES);
    ExpiryForm(f, issue, years);
  }

  lemma ShownIsGot(loc: CertLoc, c: seq<byte>, data: seq<byte>)
    requires Shows(c, loc, data)
    ensures loc.count > 0 ==> |data| == loc.count && GetElement(loc, c, |data|) == Success(data)
  {
  }

  lemma AloneExists(def: Def, k: nat)
    requires Alone(def, k)
    ensures Places(def)[k].count > 0
  {
  }

  // ----- the rest of the certificate -----

  lemma ReadCarries(def: Def, env: Env, device: Device, caKey: Option<seq<byte>>, cap: nat, buf: seq<byte>, c: seq<byte>, cc: Compressed)
    requires Reads(def, env, device, caKey, cap, buf, c) && HeldAt(device, def.compCertDevLoc, cc)
    ensures PlanFits(def) && |buf| == READ_BUFFER
    ensures var inputs := PlannedReads(def, device, buf); Carries(def, inputs, cc) && Mentions(def, inputs)
  {
    hide WellFormed, PlanFits, NamedLow, Plausible, Plan, Named, Inputs, Contents, ReadCert, BuildCert, Carries, Mentions, FitBuffer;
    ReadIsCarryingBuild(def, env, device, caKey, cap, buf, cc);
  }

  /**
   * The certificate ends with the encoded signature, and its header announces in a length field as wide
   * as the template's, and in the shortest form, how many octets follow.
   */
  lemma EndsWithSignature(def: Def, env: Env, device: Device, caKey: Option<seq<byte>>, cap: nat, buf: seq<byte>, c: seq<byte>, cc: Compressed)
    requires Reads(def, env, device, caKey, cap, buf, c) && HeldAt(device, def.compCertDevLoc, cc)
    ensures WellFormed(def) && def.signature.offset <= |c| && c[def.signature.offset..] == SigValue(cc[..64])
    ensures var w := HeaderWidth(def.template);
            1 + w <= |c| < MAX_CERT && c[1..1 + w] == LengthOctets(|c| - 1 - w) && IsLength(c[1..1 + w], |c| - 1 - w)
  {
    hide WellFormed, PlanFits, BuildCert, Carries, Mentions, SigValue, LengthOctets, PlannedReads, HeldAt, IsLength, Finished;
    ReadsAreBuilt(def, env, device, caKey, cap, buf, c);
    ReadCarries(def, env, device, caKey, cap, buf, c, cc);
    BuiltSize(def, env, cap, caKey, PlannedReads(def, device, buf), cc, c);
    FinishedEnds(def, c, cc[..64]);
  }

  lemma FinishedEnds(def: Def, c: seq<byte>, sig: RawSig)
    requires Finished(def, c, sig)
    ensures WellFormed(def) && def.signature.offset <= |c| && c[def.signature.offset..] == SigValue(sig)
    ensures var w := HeaderWidth(def.template);
            1 + w <= |c| < MAX_CERT && c[1..1 + w] == LengthOctets(|c| - 1 - w) && IsLength(c[1..1 + w], |c| - 1 - w)
  {
    hide SigValue, LengthOctets, IsLength, GetSignature, IsTlv;
    LengthOctetsForm(|c| - 1 - HeaderWidth(def.template));
  }

  /** Every octet in front of the signature that belongs to no place is the template's, but for the length field. */
  lemma RestIsTemplate(def: Def, env: Env, device: Device, caKey: Option<seq<byte>>, cap: nat, buf: seq<byte>, c: seq<byte>, cc: Compressed, i: nat)
    requires Reads(def, env, device, caKey, cap, buf, c) && HeldAt(device, def.compCertDevLoc, cc)
    requires InNoPlace(def, i) && i < def.signature.offset
    ensures WellFormed(def)
    ensures i == 0 || i > HeaderWidth(def.template) ==> i < |c| && c[i] == def.template[i]
  {
    hide WellFormed, PlanFits, BuildCert, Carries, Mentions, PlannedReads, HeldAt, InNoPlace;
    ReadsAreBuilt(def, env, device, caKey, cap, buf, c);
    ReadCarries(def, env, device, caKey, cap, buf, c, cc);
    BodyAfterHeader(def);
    if i == 0 || i > HeaderWidth(def.template) {
      BuiltKeepsTemplate(def, env, cap, caKey, PlannedReads(def, device, buf), c, cc, i);
    }
  }

  /** No smaller maximal size would do for every signature. */
  lemma MaxSizeIsReached(def: Def, raw: RawSig)
    requires raw[0] >= 0x80 && raw[32] >= 0x80
    ensures MaxCertSize(def) == def.signature.offset + |SigValue(raw)|
  {
    hide SigValue;
    LargestSig(raw);
  }
}
