/**
 * The generated serial number of a certificate read off a device: atcacert_gen_cert_sn of
 * src/cryptoauthlib/lib/atcacert/atcacert_def.c, lines 1163-1297, in terms of the finished certificate.
 */
module CertSerial {
  import opened Bytes
  import opened BigEndian
  import opened DerInteger
  import opened DeviceLocs
  import opened PosixTime
  import opened CertDates
  import opened DateForms
  import opened CertDef
  import opened CertElements
  import opened CompCert
  import opened CompForms
  import opened CertBuild
  import opened BuildLaws
  import opened CertPlaces
  import opened CertDevice
  import opened BuildSuccess
  import opened CertContents

  /** A read certificate whose serial number was generated, in a place apart from the key and the issue date. */
  ghost predicate Generates(def: Def, env: Env, device: Device, caKey: Option<seq<byte>>, cap: nat, buf: seq<byte>, c: seq<byte>) {
    && Reads(def, env, device, caKey, cap, buf, c)
    && !def.snSource.Stored? && def.certSn.count > 0
    && Apart(def.certSn, def.publicKey) && Apart(def.certSn, def.issueDate)
  }

  /** The certificate before its serial number was set. */
  ghost function Unnumbered(def: Def, env: Env, device: Device, caKey: Option<seq<byte>>, cap: nat, buf: seq<byte>): seq<byte>
    requires WellFormed(def) && PlanFits(def) && 6 <= cap < MAX_CERT && |buf| == READ_BUFFER
  {
    var e := Edited(def, env, cap, caKey, PlannedReads(def, device, buf));
    if e.Success? then e.value else []
  }

  /** The device number a build has seen. */
  ghost function SeenNumber(def: Def, device: Device, buf: seq<byte>): Option<seq<byte>>
    requires PlanFits(def) && |buf| == READ_BUFFER
  {
    FinalSn(None, PlannedReads(def, device, buf))
  }

  lemma SerialIsSet(def: Def, env: Env, device: Device, caKey: Option<seq<byte>>, cap: nat, buf: seq<byte>, c: seq<byte>)
    requires Generates(def, env, device, caKey, cap, buf, c)
    ensures WellFormed(def) && PlanFits(def) && 6 <= cap < MAX_CERT && |buf| == READ_BUFFER
    ensures var e, sn := Unnumbered(def, env, device, caKey, cap, buf), SeenNumber(def, device, buf);
            && GeneratedSn(def, env, e, sn).Success?
            && Shows(c, def.certSn, GeneratedSn(def, env, e, sn).value)
            && forall loc, n :: Apart(def.certSn, loc) ==> GetElement(loc, c, n) == GetElement(loc, e, n)
  {
    hide WellFormed, PlanFits, NamedLow, Plausible, ReadCert, BuildCert, Edited, PlannedReads, GeneratedSn, GetElement, SetElement, Apart, Shows;
    ReadsAreBuilt(def, env, device, caKey, cap, buf, c);
    BuildIsEditedThenSn(def, env, cap, caKey, PlannedReads(def, device, buf));
    var e, sn := Unnumbered(def, env, device, caKey, cap, buf), SeenNumber(def, device, buf);
    var octets := GeneratedSn(def, env, e, sn).value;
    assert SetElement(def.certSn, e, octets) == Success(c);
    forall loc, n | Apart(def.certSn, loc) ensures GetElement(loc, c, n) == GetElement(loc, e, n) {
      ElementFraming(def.certSn, e, octets, loc);
    }
    ElementFraming(def.certSn, e, octets, def.certSn);
    GotIsShown(def.certSn, c, octets);
  }

  // ----- what the device contributes -----

  /** The device's serial number: octets 0 to 3 and 8 to 12 of the configuration zone. */
  function DeviceNumber(device: Device): seq<byte>
    requires |device.zone(ConfigZone, 0)| >= 13
  {
    device.zone(ConfigZone, 0)[0..4] + device.zone(ConfigZone, 0)[8..13]
  }

  lemma {:induction false} SeenIsHeld(sn: Option<seq<byte>>, inputs: seq<Read>, held: seq<byte>)
    requires AllComplete(inputs) && AllTell(inputs, DeviceSnLoc, held) && |held| == 13
    ensures FinalSn(sn, inputs) == sn || FinalSn(sn, inputs) == Some(held[..4] + held[8..13])
    decreases |inputs|
  {
    hide Extract;
    if inputs != [] {
      SeenIsHeld(SeenSn(sn, inputs[0]), inputs[1..], held);
    }
  }

  lemma NumberIsHeld(def: Def, env: Env, device: Device, caKey: Option<seq<byte>>, cap: nat, buf: seq<byte>, c: seq<byte>)
    requires Reads(def, env, device, caKey, cap, buf, c) && def.snSource.NeedsDeviceSn() && |device.zone(ConfigZone, 0)| >= 13
    ensures PlanFits(def) && |buf| == READ_BUFFER
    ensures SeenNumber(def, device, buf).Some? ==> SeenNumber(def, device, buf).value == DeviceNumber(device)
  {
    hide WellFormed, PlanFits, NamedLow, Plausible, ReadCert, PlannedReads, AllTell, Named;
    NamedParts(def);
    var held := device.zone(ConfigZone, 0)[0..13];
    NamedIsRead(def, env, device, caKey, cap, buf, c, 3 + |def.elements|, held);
    SeenIsHeld(None, PlannedReads(def, device, buf), held);
    assert held[..4] == device.zone(ConfigZone, 0)[0..4] && held[8..13] == device.zone(ConfigZone, 0)[8..13];
  }

  /** Serial number from the device: 40 and the nine octets. */
  lemma DeviceSerial(def: Def, env: Env, device: Device, caKey: Option<seq<byte>>, cap: nat, buf: seq<byte>, c: seq<byte>)
    requires Generates(def, env, device, caKey, cap, buf, c) && def.snSource.DeviceSn? && |device.zone(ConfigZone, 0)| >= 13
    ensures Shows(c, def.certSn, [0x40] + DeviceNumber(device))
  {
    hide WellFormed, PlanFits, NamedLow, Plausible, ReadCert, Unnumbered, SeenNumber, Shows, GetElement;
    SerialIsSet(def, env, device, caKey, cap, buf, c);
    NumberIsHeld(def, env, device, caKey, cap, buf, c);
  }

  /** Serial number from the signer: 40 and its two octets in the compressed certificate. */
  lemma SignerSerial(def: Def, env: Env, device: Device, caKey: Option<seq<byte>>, cap: nat, buf: seq<byte>, c: seq<byte>, cc: Compressed)
    requires Generates(def, env, device, caKey, cap, buf, c) && def.snSource.SignerId?
    requires HeldAt(device, def.compCertDevLoc, cc) && Alone(def, SIGNER)
    ensures Shows(c, def.certSn, [0x40, cc[67], cc[68]])
  {
    hide WellFormed, PlanFits, NamedLow, Plausible, ReadCert, Unnumbered, SeenNumber, HeldAt, Alone, Contents, OctetOfHex, HexOctet;
    SerialIsSet(def, env, device, caKey, cap, buf, c);
    var hex := HexOctet(cc[67]) + HexOctet(cc[68]);
    PlaceIsHeld(def, env, device, caKey, cap, buf, c, SIGNER, cc);
    assert Shows(c, def.signerId, hex);
    HexPair(cc[67], cc[68]);
    ShownIsGot(def.signerId, c, hex);
    AloneExists(def, SIGNER);
    SerialApart(def, SIGNER);
  }

  lemma SerialApart(def: Def, k: nat)
    requires Alone(def, k) && k != SERIAL && def.certSn.count > 0
    ensures Apart(def.certSn, Places(def)[k])
  {
    assert Places(def)[SERIAL] == def.certSn;
  }

  // ----- hashed serial numbers -----

  predicate Hashed(source: SnSource) { !source.Stored? && !source.DeviceSn? && !source.SignerId? }

  /**
   * The serial number is the front of the digest, but for its first octet: as it is; or with its top bit
   * cleared, so that the number is positive; or with its top bits set to 01, so that no DER encoder
   * trims it either.
   */
  predicate IsSerial(source: SnSource, sn: seq<byte>, digest: Digest32) {
    && 1 <= |sn| <= 32 && sn[1..] == digest[1..|sn|]
    && match source
       case PubKeyHashRaw => sn[0] == digest[0]
       case DeviceSnHashRaw => sn[0] == digest[0]
       case PubKeyHashPos => sn[0] < 0x80 && sn[0] == digest[0] % 0x80
       case DeviceSnHashPos => sn[0] < 0x80 && sn[0] == digest[0] % 0x80
       case _ => 0x40 <= sn[0] < 0x80 && sn[0] % 0x40 == digest[0] % 0x40 && Signed(sn) > 0 && !Redundant(sn)
  }

  lemma MaskedIsSerial(source: SnSource, digest: Digest32, n: nat)
    requires Hashed(source) && 1 <= n <= 32
    ensures IsSerial(source, MaskSn(source, digest)[..n], digest)
  {
    hide Signed, Redundant, MaskSn;
    var m, sn := MaskSn(source, digest), MaskSn(source, digest)[..n];
    MaskedFirst(source, digest);
    assert sn[0] == m[0] && sn[1..] == digest[1..n];
    if 0x40 <= m[0] < 0x80 {
      PositiveSerial(sn);
    }
  }

  lemma MaskedFirst(source: SnSource, digest: Digest32)
    requires Hashed(source)
    ensures var m := MaskSn(source, digest);
            && m[1..] == digest[1..]
            && if source.PubKeyHashRaw? || source.DeviceSnHashRaw? then m[0] == digest[0]
               else if source.PubKeyHashPos? || source.DeviceSnHashPos? then m[0] == digest[0] % 0x80
               else 0x40 <= m[0] < 0x80 && m[0] % 0x40 == digest[0] % 0x40
  {
  }

  lemma PositiveSerial(sn: seq<byte>)
    requires sn != [] && 0x40 <= sn[0] < 0x80
    ensures Signed(sn) > 0 && !Redundant(sn)
  {
    ValueFromFront(sn);
    Scale(0x40, sn[0], Pow256(|sn| - 1));
  }

  /** The issue date as the finished certificate states it. */
  function Issued(def: Def, c: seq<byte>): Result<Tm> { GetDate(def.issueDate, def.issueFormat, c) }

  /** What is hashed in front of the dates: the device's number, or the key in the finished certificate. */
  function Seed(def: Def, device: Device, c: seq<byte>): seq<byte>
    requires if def.snSource.NeedsDeviceSn() then |device.zone(ConfigZone, 0)| >= 13 else def.publicKey.End() <= |c|
  {
    if def.snSource.NeedsDeviceSn() then DeviceNumber(device) else c[def.publicKey.offset..def.publicKey.End()]
  }

  /**
   * A hashed serial number is made from the SHA-256 digest of the seed and of the certificate's issue
   * date and the definition's validity in 24 bits.
   */
  lemma HashedSerial(def: Def, env: Env, device: Device, caKey: Option<seq<byte>>, cap: nat, buf: seq<byte>, c: seq<byte>)
    requires Generates(def, env, device, caKey, cap, buf, c) && Hashed(def.snSource)
    requires def.snSource.NeedsDeviceSn() ==> |device.zone(ConfigZone, 0)| >= 13
    ensures Issued(def, c).Success? && def.certSn.End() <= |c|
    ensures !def.snSource.NeedsDeviceSn() ==> def.publicKey.count == 64 && def.publicKey.End() <= |c|
    ensures 0 <= PackedBits(Issued(def, c).value, def.expireYears) < 0x100_0000
    ensures IsSerial(def.snSource, c[def.certSn.offset..def.certSn.End()],
                     env.sha256(Seed(def, device, c) + Octets24(PackedBits(Issued(def, c).value, def.expireYears))))
  {
    hide WellFormed, PlanFits, NamedLow, Plausible, ReadCert, Unnumbered, SeenNumber, GetElement, DecodeDate, Pack, PackedBits, Octets24;
    hide MaskSn, IsSerial;
    SerialIsSet(def, env, device, caKey, cap, buf, c);
    var e, sn := Unnumbered(def, env, device, caKey, cap, buf), SeenNumber(def, device, buf);
    var seed := SnSeed(def, e, sn).value;
    var dates := IssueDates(def, e).value;
    PackForm(Issued(def, c).value, def.expireYears);
    MaskedIsSerial(def.snSource, env.sha256(seed + dates), def.certSn.count);
    if def.snSource.NeedsDeviceSn() {
      NumberIsHeld(def, env, device, caKey, cap, buf, c);
    } else {
      GotIsShown(def.publicKey, c, seed);
    }
  }

  // ----- the example -----

  /** The example meets what these laws ask for: it is read, numbered by a hash, and its elements stand alone. */
  lemma ExampleIsNumbered(cap: nat, buf: seq<byte>) returns (c: seq<byte>)
    requires 215 <= cap < MAX_CERT && |buf| == READ_BUFFER
    ensures Generates(ExampleDef(), ExampleEnv(), ExampleDevice(), None, cap, buf, c) && Hashed(ExampleDef().snSource)
    ensures HeldAt(ExampleDevice(), ExampleDef().publicKeyDevLoc, Zeros(64))
    ensures HeldAt(ExampleDevice(), ExampleDef().compCertDevLoc, ExampleComp())
    ensures Alone(ExampleDef(), KEY) && Alone(ExampleDef(), ISSUED) && Alone(ExampleDef(), SIGNER) && Alone(ExampleDef(), SERIAL)
  {
    hide WellFormed, PlanFits, NamedLow, Plausible, ReadCert, Contents;
    ExampleCanBeRead(cap, buf);
    ExampleStandsAlone();
    ExampleKeyHeld();
    c := ReadCert(ExampleDef(), ExampleEnv(), ExampleDevice(), None, cap, buf).value;
  }

  lemma ExampleStandsAlone()
    ensures var def := ExampleDef();
            && Alone(def, KEY) && Alone(def, ISSUED) && Alone(def, SIGNER) && Alone(def, SERIAL)
            && def.certSn.count > 0 && Hashed(def.snSource) && Apart(def.certSn, def.publicKey) && Apart(def.certSn, def.issueDate)
  {
    hide Zeros;
    assert Places(ExampleDef()) == [CertLoc(39, 64), NOWHERE, NOWHERE, CertLoc(6, 13), NOWHERE, CertLoc(19, 4), CertLoc(23, 16)];
  }

  lemma ExampleKeyHeld()
    ensures HeldAt(ExampleDevice(), ExampleDef().publicKeyDevLoc, Zeros(64))
    ensures !ExampleDef().compCertDevLoc.IsNull()
  {
    assert Zeros(64)[0..64] == Zeros(64);
  }
}
