/**
 * What the pieces of a compressed certificate mean: hex digits, the definition it names, and the
 * expiry date it stands for (src/cryptoauthlib/lib/atcacert/atcacert_def.c, lines 967-1081 and
 * 1383-1457; atcacert_date.c, lines 1082-1131).
 */
module CompForms {
  import opened Bytes
  import opened EcdsaSig
  import opened PosixTime
  import opened PosixDates
  import opened CertDates
  import opened DateForms
  import opened CertDef
  import opened CertElements
  import opened CompCert

  // ----- hex digits -----

  const UPPER: string := "0123456789ABCDEF"
  const LOWER: string := "0123456789abcdef"

  function Hex(nibble: nat): byte
    requires nibble < 16
  {
    UPPER[nibble] as int
  }

  lemma HexForm(b: byte)
    ensures HexOctet(b) == [Hex(b / 16), Hex(b % 16)]
  {
  }

  /** The digits of either case, and no other characters, are read back. */
  lemma HexAccepted(hi: byte, lo: byte, b: byte)
    ensures OctetOfHex(hi, lo) == Success(b)
            <==> && (hi == UPPER[b / 16] as int || hi == LOWER[b / 16] as int)
                 && (lo == UPPER[b % 16] as int || lo == LOWER[b % 16] as int)
  {
    hide HexValue;
    DigitAccepted(hi, b / 16);
    DigitAccepted(lo, b % 16);
    HexBound(hi);
    HexBound(lo);
    TwoNibbles(hi, lo, b);
  }

  lemma DigitAccepted(c: byte, n: nat)
    requires n < 16
    ensures HexValue(c) == Some(n) <==> c == UPPER[n] as int || c == LOWER[n] as int
  {
  }

  lemma TwoNibbles(hi: byte, lo: byte, b: byte)
    ensures OctetOfHex(hi, lo) == Success(b) <==> HexValue(hi) == Some(b / 16) && HexValue(lo) == Some(b % 16)
  {
    hide HexValue;
    HexBound(hi);
    HexBound(lo);
  }

  // ----- the definition -----

  /** The four bits of ATCACERT_CERT_SN_SRC for each source (atcacert_def.h). */
  function SourceCode(source: SnSource): nat {
    if source.Stored? then 0
    else if source.DeviceSn? then 8
    else if source.SignerId? then 9
    else if source.PubKeyHash? then 10
    else if source.DeviceSnHash? then 11
    else if source.PubKeyHashPos? then 12
    else if source.DeviceSnHashPos? then 13
    else if source.PubKeyHashRaw? then 14
    else 15
  }

  /** Octets 69 and 70 name template, chain and serial number source, and format version 0. */
  lemma DefinitionForm(def: Def, cc: Compressed)
    ensures CheckDef(def, cc).Success? <==>
              cc[69] as int == def.templateId * 16 + def.chainId as int && def.chainId < 16 && cc[70] as int == SourceCode(def.snSource) * 16
    ensures CheckDef(def, cc).Failure? ==> CheckDef(def, cc).error == if cc[70] % 16 != 0 then DecodingError else WrongCertDef
  {
  }

  /** Without an issue date and a signer ID a certificate compresses with 2000-01-01 and signer 0. */
  lemma CollectWithout(def: Def, c: seq<byte>, sig: RawSig)
    requires def.issueDate.count == 0 && def.signerId.count == 0 && GetSignature(def, c) == Success(sig)
    requires def.templateId < 16 && def.chainId < 16
    ensures GetCompCert(def, c).Success? <==> def.expireYears <= 31
    ensures GetCompCert(def, c).Success? ==>
              GetCompCert(def, c).value == sig + [0x00, 0x84, def.expireYears] + [0, 0]
                                           + [def.templateId * 16 + def.chainId, SourceCode(def.snSource) * 16, 0]
  {
    hide GetSignature;
    NoDate(def, c);
    var t := Trailer(def);
    assert t == [def.templateId * 16 + def.chainId, SourceCode(def.snSource) * 16, 0];
  }

  lemma NoDate(def: Def, c: seq<byte>)
    requires def.issueDate.count == 0
    ensures GetDates(def, c) == if def.expireYears <= 31 then Success([0x00, 0x84, def.expireYears]) else Failure(InvalidDate)
  {
    hide DecodeDate, Pack;
    FirstOf2000(def.expireYears);
  }

  lemma FirstOf2000(years: byte)
    ensures Pack(Tm(0, 0, 0, 1, 0, 100), years) == if years <= 31 then Success([0x00, 0x84, years]) else Failure(InvalidDate)
  {
    var t := Tm(0, 0, 0, 1, 0, 100);
    assert Packable(t, years) <==> years <= 31;
    if years <= 31 {
      var b := Pack(t, years).value;
      assert b[0] == 0x00 && b[1] == 0x84 && b[2] == years;
      assert b == [0x00, 0x84, years];
    }
  }

  // ----- the expiry date -----

  /**
   * With a validity of some years: the issue date in that many years, to the hour, and in the POSIX
   * formats exactly when that date exists. Without one: the last date the format can express, which the
   * POSIX encoder refuses to write.
   */
  ghost predicate ExpiresRightly(f: DateFormat, issue: Tm, years: nat, got: Result<Tm>) {
    && got.Success?
    && (years > 0 ==>
          (got.value == Tm(0, 0, issue.hour, issue.mday, issue.mon, issue.year + years)
           <==> f.IsText() || IsCalendar(Tm(0, 0, issue.hour, issue.mday, issue.mon, issue.year + years))))
    && (years == 0 ==> f.IsText() && forall t :: EncodeDate(f, t).Success? ==> !PosixTime.Before(got.value, t))
  }

  lemma ExpiryForm(f: DateFormat, issue: Tm, years: nat)
    requires EncodeDate(f, Expiry(f, issue, years)).Success?
    ensures ExpiresRightly(f, issue, years, DecodeDate(f, EncodeDate(f, Expiry(f, issue, years)).value))
  {
    hide EncodeDate, DecodeDate, IsCalendar, PosixTime.Before;
    var t := Expiry(f, issue, years);
    DateRoundTrip(f, t);
    if years == 0 {
      MaxDateEncodes(f);
      forall u | EncodeDate(f, u).Success? ensures !PosixTime.Before(t, u) {
        NothingLater(f, u);
      }
    }
  }

  /** After a compressed certificate is set, the certificate expires as it says. */
  lemma ExpiryIsSet(def: Def, cert: seq<byte>, cap: nat, cc: Compressed)
    requires |cert| <= cap < MAX_CERT && CompElementsApart(def) && def.expireDate.count > 0
    requires SetCompCert(def, cert, cap, cc).Success?
    ensures var r := SetCompCert(def, cert, cap, cc).value;
            ExpiresRightly(def.expireFormat, Unpack(cc[64..67]).0, cc[66] % 0x20, GetDate(def.expireDate, def.expireFormat, r))
  {
    hide SetSignature, EncodeDate, DecodeDate, GetElement, SetElement, Unpack, Expiry, ExpiresRightly, SigValue, CheckDef;
    var signed := SetSignature(def, cert, cap, cc[..64]).value;
    var (issue, years) := Unpack(cc[64..67]);
    UnpackedYears(cc[64..67]);
    var last := Expiry(def.expireFormat, issue, years);
    var dated := SetDate(def.issueDate, def.issueFormat, signed, issue).value;
    var expiring := SetDates(def, signed, cc[64..67]).value;
    var id, hex := cc[67..69], HexOctet(cc[67]) + HexOctet(cc[68]);
    assert id == [cc[67], cc[68]];
    DateIsSet(def, def.expireDate, def.expireFormat, dated, last, def.expireDate);
    ElementFraming(def.signerId, expiring, hex, def.expireDate);
    ExpiryForm(def.expireFormat, issue, years);
  }

  lemma UnpackedYears(packed: seq<byte>)
    requires |packed| == 3
    ensures Unpack(packed).1 == packed[2] % 0x20
  {
  }
}
