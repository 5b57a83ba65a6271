/**
 * Certificate definitions (src/cryptoauthlib/lib/atcacert/atcacert_def.h): X.509 certificates whose
 * serial number has a fixed size, as in every definition the library ships.
 */
module CertDef {
  import opened Bytes
  import opened DeviceLocs
  import opened CertDates

  /** A chunk of the certificate template; count 0 means the element does not exist. */
  datatype CertLoc = CertLoc(offset: uint16, count: uint16) {
    function End(): nat { offset + count }
  }

  datatype SnSource =
    | Stored | DeviceSn | SignerId
    | PubKeyHash | DeviceSnHash | PubKeyHashPos | DeviceSnHashPos | PubKeyHashRaw | DeviceSnHashRaw
  {
    /** The four-bit code kept in a compressed certificate. */
    function Nibble(): byte {
      match this
      case Stored => 0x0 case DeviceSn => 0x8 case SignerId => 0x9
      case PubKeyHash => 0xA case DeviceSnHash => 0xB
      case PubKeyHashPos => 0xC case DeviceSnHashPos => 0xD
      case PubKeyHashRaw => 0xE case DeviceSnHashRaw => 0xF
    }

    predicate NeedsDeviceSn() { DeviceSn? || DeviceSnHash? || DeviceSnHashPos? || DeviceSnHashRaw? }
  }

  /** An element beyond the standard ones; transforms are atcacert_transform_t codes, 0 for none. */
  datatype Element = Element(deviceLoc: DeviceLoc, certLoc: CertLoc, transform1: nat, transform2: nat)

  datatype Def = Def(
    templateId: byte, chainId: byte, snSource: SnSource,
    certSnDevLoc: DeviceLoc, publicKeyDevLoc: DeviceLoc, compCertDevLoc: DeviceLoc,
    issueFormat: DateFormat, expireFormat: DateFormat, expireYears: byte,
    publicKey: CertLoc, signature: CertLoc, issueDate: CertLoc, expireDate: CertLoc,
    signerId: CertLoc, certSn: CertLoc, authKeyId: CertLoc, subjKeyId: CertLoc,
    elements: seq<Element>, template: seq<byte>)

  type Digest20 = d: seq<byte> | |d| == 20 witness seq(20, _ => 0)
  type Digest32 = d: seq<byte> | |d| == 32 witness seq(32, _ => 0)

  /** The hashes and element transforms the builder calls; nothing is assumed about them but their sizes. */
  datatype Env = Env(
    sha1: seq<byte> -> Digest20,
    sha256: seq<byte> -> Digest32,
    transform: (nat, seq<byte>) -> Result<seq<byte>>)

  /** Certificate sizes stay far inside a C int. */
  const MAX_CERT: nat := 0x4000_0000
}
