/**
 * The 72-octet compressed certificate: signature (64), dates (3), signer ID (2), template and chain
 * (1), serial-number source and format (1), reserved (1). Setting its pieces in a certificate and
 * collecting them again: src/cryptoauthlib/lib/atcacert/atcacert_def.c, lines 819-1081 and 1383-1514.
 */
module CompCert {
  import opened Bytes
  import opened EcdsaSig
  import opened PosixTime
  import PosixDates
  import opened CertDates
  import opened CertDef
  import opened CertElements

  type Compressed = c: seq<byte> | |c| == 72 witness seq(72, _ => 0)

  // ----- dates and signer ID -----

  function SetDate(loc: CertLoc, f: DateFormat, cert: seq<byte>, t: Tm): (r: Result<seq<byte>>)
    ensures r.Success? ==> |r.value| == |cert|
  {
    if loc.count == 0 then Success(cert)
    else
      var text :- EncodeDate(f, t);
      SetElement(loc, cert, text)
  }

  function GetDate(loc: CertLoc, f: DateFormat, cert: seq<byte>): Result<Tm> {
    var text :- GetElement(loc, cert, f.Size());
    DecodeDate(f, text)
  }

  function HexDigit(nibble: nat): byte
    requires nibble < 16
  {
    if nibble < 10 then 0x30 + nibble else 0x41 + (nibble - 10)
  }

  function HexOctet(b: byte): seq<byte> { [HexDigit(b / 0x10), HexDigit(b % 0x10)] }

  function HexValue(c: byte): Option<nat> {
    if 0x30 <= c <= 0x39 then Some(c - 0x30)
    else if 0x41 <= c <= 0x46 then Some(c - 0x41 + 10)
    else if 0x61 <= c <= 0x66 then Some(c - 0x61 + 10)
    else None
  }

  function OctetOfHex(hi: byte, lo: byte): (r: Result<byte>) {
    match (HexValue(hi), HexValue(lo))
    case (Some(h), Some(l)) => HexBound(hi); HexBound(lo); Success(h * 0x10 + l)
    case _ => Failure(DecodingError)
  }

  lemma HexBound(c: byte)
    ensures HexValue(c).Some? ==> HexValue(c).value < 16
  {
  }

  lemma HexRoundTrip(b: byte)
    ensures OctetOfHex(HexOctet(b)[0], HexOctet(b)[1]) == Success(b)
  {
    assert HexValue(HexDigit(b / 0x10)) == Some(b / 0x10);
    assert HexValue(HexDigit(b % 0x10)) == Some(b % 0x10);
  }

  function SetSignerId(def: Def, cert: seq<byte>, id: seq<byte>): (r: Result<seq<byte>>)
    requires |id| == 2
    ensures r.Success? ==> |r.value| == |cert|
  {
    SetElement(def.signerId, cert, HexOctet(id[0]) + HexOctet(id[1]))
  }

  function GetSignerId(def: Def, cert: seq<byte>): (r: Result<seq<byte>>)
    ensures r.Success? ==> |r.value| == 2
  {
    var hex :- GetElement(def.signerId, cert, 4);
    var hi :- OctetOfHex(hex[0], hex[1]);
    var lo :- OctetOfHex(hex[2], hex[3]);
    Success([hi, lo])
  }

  // ----- the compressed certificate -----

  /** The definition a compressed certificate says it belongs to. */
  function CheckDef(def: Def, cc: Compressed): Result<()> {
    if cc[70] % 0x10 != 0 then Failure(DecodingError)
    else if cc[69] / 0x10 != def.templateId || cc[69] % 0x10 != def.chainId || cc[70] / 0x10 != def.snSource.Nibble() then
      Failure(WrongCertDef)
    else Success(())
  }

  function SetDates(def: Def, cert: seq<byte>, packed: seq<byte>): (r: Result<seq<byte>>)
    requires |packed| == 3
    ensures r.Success? ==> |r.value| == |cert|
  {
    var (issue, years) := Unpack(packed);
    var dated :- SetDate(def.issueDate, def.issueFormat, cert, issue);
    SetDate(def.expireDate, def.expireFormat, dated, Expiry(def.expireFormat, issue, years))
  }

  function SetCompCert(def: Def, cert: seq<byte>, cap: nat, cc: Compressed): (r: Result<seq<byte>>)
    requires |cert| <= cap < MAX_CERT
    ensures r.Success? ==> |r.value| == def.signature.offset + |SigValue(cc[..64])| <= cap
  {
    var ok :- CheckDef(def, cc);
    var signed :- SetSignature(def, cert, cap, cc[..64]);
    var dated :- SetDates(def, signed, cc[64..67]);
    SetSignerId(def, dated, cc[67..69])
  }

  /** The issue date packed with the definition's validity; a certificate without one counts as 2000-01-01. */
  function GetDates(def: Def, cert: seq<byte>): (r: Result<seq<byte>>)
    ensures r.Success? ==> |r.value| == 3
  {
    var issue := GetDate(def.issueDate, def.issueFormat, cert);
    if issue.Failure? && issue.error != ElemMissing then issue.PropagateFailure()
    else Pack(if issue.Success? then issue.value else Tm(0, 0, 0, 1, 0, 100), def.expireYears)
  }

  function GetCompCert(def: Def, cert: seq<byte>): Result<Compressed> {
    var sig :- GetSignature(def, cert);
    var dates :- GetDates(def, cert);
    var id := GetSignerId(def, cert);
    if id.Failure? && id.error != ElemMissing then id.PropagateFailure()
    else Success(Assemble(sig, dates, if id.Success? then id.value else [0, 0], Trailer(def)))
  }

  function Assemble(sig: RawSig, dates: seq<byte>, id: seq<byte>, trailer: seq<byte>): Compressed
    requires |dates| == 3 && |id| == 2 && |trailer| == 3
  {
    sig + dates + id + trailer
  }

  /** Octets 69 to 71. */
  function Trailer(def: Def): (t: seq<byte>)
    ensures |t| == 3
  {
    [def.templateId % 0x10 * 0x10 + def.chainId % 0x10, def.snSource.Nibble() * 0x10, 0]
  }

  // ----- the round trip -----

  /** The elements a compressed certificate fills lie between the header and the signature, apart from each other. */
  predicate CompElementsApart(def: Def) {
    && 6 <= def.signature.offset
    && Before(def.issueDate, def) && Before(def.expireDate, def) && Before(def.signerId, def)
    && Apart(def.issueDate, def.expireDate) && Apart(def.issueDate, def.signerId) && Apart(def.expireDate, def.signerId)
  }

  predicate Before(loc: CertLoc, def: Def) {
    loc.End() <= def.signature.offset
  }

  /** Writing an element in front of the signature leaves the signature alone. */
  lemma SignatureUntouched(def: Def, loc: CertLoc, cert: seq<byte>, data: seq<byte>)
    requires Before(loc, def) && SetElement(loc, cert, data).Success?
    ensures GetSignature(def, SetElement(loc, cert, data).value) == GetSignature(def, cert)
  {
    hide DecodeSig;
    var r := SetElement(loc, cert, data).value;
    ElementFraming(loc, cert, data, loc);
    if def.signature.offset <= |cert| {
      assert r[def.signature.offset..] == cert[def.signature.offset..];
    }
  }

  lemma DateIsSet(def: Def, loc: CertLoc, f: DateFormat, cert: seq<byte>, t: Tm, other: CertLoc)
    requires SetDate(loc, f, cert, t).Success? && Before(loc, def)
    ensures var r := SetDate(loc, f, cert, t).value;
            && GetSignature(def, r) == GetSignature(def, cert)
            && (Apart(loc, other) ==> forall n :: GetElement(other, r, n) == GetElement(other, cert, n))
            && (loc.count > 0 ==> EncodeDate(f, t).Success? && GetElement(loc, r, f.Size()) == EncodeDate(f, t))
  {
    hide EncodeDate, SetElement, GetElement, GetSignature;
    NoElement(loc, cert);
    if loc.count > 0 {
      var text := EncodeDate(f, t).value;
      ElementFraming(loc, cert, text, other);
      SignatureUntouched(def, loc, cert, text);
    }
  }

  lemma NoElement(loc: CertLoc, cert: seq<byte>)
    ensures loc.count == 0 ==> forall d :: SetElement(loc, cert, d) == Success(cert)
  {
  }

  /** What a successful SetCompCert leaves in the certificate, piece by piece. */
  lemma CompCertPieces(def: Def, cert: seq<byte>, cap: nat, cc: Compressed)
    requires |cert| <= cap < MAX_CERT && CompElementsApart(def)
    requires def.issueDate.count > 0 && def.signerId.count > 0
    requires SetCompCert(def, cert, cap, cc).Success?
    ensures var r, issue := SetCompCert(def, cert, cap, cc).value, Unpack(cc[64..67]).0;
            && GetSignature(def, r) == Success(cc[..64])
            && EncodeDate(def.issueFormat, issue).Success?
            && GetElement(def.issueDate, r, def.issueFormat.Size()) == EncodeDate(def.issueFormat, issue)
            && GetSignerId(def, r) == Success(cc[67..69])
  {
    hide SetElement, GetElement, GetSignature, SetSignature, EncodeDate, Unpack, Expiry, SetDate, HexOctet, OctetOfHex;
    var signed := SetSignature(def, cert, cap, cc[..64]).value;
    var (issue, years) := Unpack(cc[64..67]);
    var dated := SetDate(def.issueDate, def.issueFormat, signed, issue).value;
    var expiring := SetDates(def, signed, cc[64..67]).value;
    var id, hex := cc[67..69], HexOctet(cc[67]) + HexOctet(cc[68]);
    var r := SetCompCert(def, cert, cap, cc).value;
    SignatureIsSet(def, cert, cap, cc[..64]);
    DateIsSet(def, def.issueDate, def.issueFormat, signed, issue, def.issueDate);
    DateIsSet(def, def.expireDate, def.expireFormat, dated, Expiry(def.expireFormat, issue, years), def.issueDate);
    ElementFraming(def.signerId, expiring, hex, def.issueDate);
    SignatureUntouched(def, def.signerId, expiring, hex);
    HexPair(cc[67], cc[68]);
    assert id == [cc[67], cc[68]];
  }

  lemma HexPair(a: byte, b: byte)
    ensures var hex := HexOctet(a) + HexOctet(b);
            |hex| == 4 && OctetOfHex(hex[0], hex[1]) == Success(a) && OctetOfHex(hex[2], hex[3]) == Success(b)
  {
    HexRoundTrip(a);
    HexRoundTrip(b);
  }

  /** Anything an encoder accepts has a month, day and hour the packing accepts. */
  lemma EncodableDatePacks(f: DateFormat, packed: seq<byte>)
    requires |packed| == 3 && EncodeDate(f, Unpack(packed).0).Success?
    ensures Pack(Unpack(packed).0, packed[2] % 0x20) == Success(packed)
  {
    PackUnpack(packed);
  }

  /**
   * Collecting the pieces of a compressed certificate returns all 72 octets exactly when the reserved
   * octet is zero, the validity is the definition's, and the issue date survives its format.
   */
  lemma CollectIff(def: Def, r: seq<byte>, cc: Compressed)
    requires CheckDef(def, cc).Success? && GetSignature(def, r) == Success(cc[..64])
    requires EncodeDate(def.issueFormat, Unpack(cc[64..67]).0).Success?
    requires GetElement(def.issueDate, r, def.issueFormat.Size()) == EncodeDate(def.issueFormat, Unpack(cc[64..67]).0)
    requires GetSignerId(def, r) == Success(cc[67..69])
    ensures GetCompCert(def, r) == Success(cc) <==> Recoverable(def, cc)
  {
    hide GetElement, GetSignature, GetSignerId, EncodeDate, DecodeDate, Unpack, IsCalendar, Pack;
    var packed := cc[64..67];
    TrailerIs(def, cc);
    DatesReadBack(def, r, packed);
    assert cc == cc[..64] + packed + cc[67..69] + cc[69..72];
    if GetDates(def, r).Success? {
      var got := cc[..64] + GetDates(def, r).value + cc[67..69] + Trailer(def);
      assert GetCompCert(def, r) == Success(got);
      assert got[64..67] == GetDates(def, r).value && got[69..72] == Trailer(def);
    }
  }

  predicate Recoverable(def: Def, cc: Compressed) {
    && cc[71] == 0
    && cc[66] % 0x20 == def.expireYears
    && (def.issueFormat.IsText() || IsCalendar(Unpack(cc[64..67]).0))
  }

  /** Compressing a certificate that was just given a compressed certificate returns the same 72 octets. */
  lemma CompCertRoundTrip(def: Def, cert: seq<byte>, cap: nat, cc: Compressed)
    requires |cert| <= cap < MAX_CERT && CompElementsApart(def)
    requires def.issueDate.count > 0 && def.signerId.count > 0
    requires SetCompCert(def, cert, cap, cc).Success?
    ensures GetCompCert(def, SetCompCert(def, cert, cap, cc).value) == Success(cc) <==> Recoverable(def, cc)
  {
    hide SetSignature, SetDates, SetSignerId, GetCompCert, GetElement, GetSignature, GetSignerId, EncodeDate, Unpack, Recoverable;
    CompCertPieces(def, cert, cap, cc);
    CollectIff(def, SetCompCert(def, cert, cap, cc).value, cc);
  }

  lemma TrailerIs(def: Def, cc: Compressed)
    requires CheckDef(def, cc).Success?
    ensures Trailer(def) == cc[69..72] <==> cc[71] == 0
  {
    assert cc[69] == cc[69] / 0x10 * 0x10 + cc[69] % 0x10;
    assert cc[70] == cc[70] / 0x10 * 0x10 + cc[70] % 0x10;
    assert cc[69..72] == [cc[69], cc[70], cc[71]];
  }

  /** The dates read back exactly when the date survives its format and the validity is the definition's. */
  lemma DatesReadBack(def: Def, cert: seq<byte>, packed: seq<byte>)
    requires |packed| == 3 && EncodeDate(def.issueFormat, Unpack(packed).0).Success?
    requires GetElement(def.issueDate, cert, def.issueFormat.Size()) == EncodeDate(def.issueFormat, Unpack(packed).0)
    ensures GetDates(def, cert) == Success(packed)
            <==> packed[2] % 0x20 == def.expireYears && (def.issueFormat.IsText() || IsCalendar(Unpack(packed).0))
  {
    hide GetElement, EncodeDate, DecodeDate, IsCalendar;
    var issue := Unpack(packed).0;
    DateRoundTrip(def.issueFormat, issue);
    EncodableDatePacks(def.issueFormat, packed);
    var got := DecodeDate(def.issueFormat, EncodeDate(def.issueFormat, issue).value).value;
    if Pack(got, def.expireYears) == Success(packed) {
      UnpackPack(got, def.expireYears);
      SameToTheHour(def.issueFormat, issue, got);
    }
  }

  /** Dates that differ at all after a format's round trip differ in what is packed. */
  lemma SameToTheHour(f: DateFormat, t: Tm, got: Tm)
    requires EncodeDate(f, t).Success? && DecodeDate(f, EncodeDate(f, t).value) == Success(got)
    requires t.min == 0 && t.sec == 0 && t == got.(min := 0, sec := 0)
    ensures f.IsText() || IsCalendar(t)
  {
    hide EncodeDate, DecodeDate;
    if !f.IsText() {
      PosixDecodesCalendar(f, t);
    }
  }

  lemma PosixDecodesCalendar(f: DateFormat, t: Tm)
    requires !f.IsText() && EncodeDate(f, t).Success?
    ensures IsCalendar(DecodeDate(f, EncodeDate(f, t).value).value)
  {
    hide IsCalendar;
    PosixDates.PosixRoundTrip(t, f.PosixLe?);
  }

  // ----- the C functions -----

  /** atcacert_set_issue_date and atcacert_set_expire_date. */
  method SetCertDate(loc: CertLoc, f: DateFormat, cert: array<byte>, certSize: nat, t: Tm) returns (st: Status)
    requires certSize <= cert.Length
    modifies cert
    ensures st == SetDate(loc, f, old(cert[..certSize]), t).Code()
    ensures st.Ok? ==> cert[..certSize] == SetDate(loc, f, old(cert[..certSize]), t).value
    ensures !st.Ok? ==> cert[..] == old(cert[..])
  {
    hide EncodeDate, SetElement, Splice;
    if loc.count == 0 {
      return Ok;
    }
    var text := new byte[20](_ => 0);
    ghost var blank: seq<byte> := text[..];
    var textSize;
    st, textSize := EncDate(f, t, text, 0, 20);
    if st != Ok {
      return;
    }
    SpliceInside(blank, 0, EncodeDate(f, t).value);
    st := SetCertElement(loc, cert, certSize, text[..textSize]);
  }

  /** atcacert_get_issue_date and atcacert_get_expire_date. */
  method GetCertDate(loc: CertLoc, f: DateFormat, cert: array<byte>, certSize: nat) returns (st: Status, t: Tm)
    requires certSize <= cert.Length
    ensures st == GetDate(loc, f, cert[..certSize]).Code()
    ensures st.Ok? ==> GetDate(loc, f, cert[..certSize]) == Success(t)
  {
    hide DecodeDate, GetElement, Splice;
    t := Tm(0, 0, 0, 0, 0, 0);
    var text := new byte[20](_ => 0);
    ghost var blank: seq<byte> := text[..];
    st := GetCertElement(loc, cert, certSize, text, 0, f.Size());
    if st != Ok {
      return;
    }
    SpliceInside(blank, 0, GetElement(loc, cert[..certSize], f.Size()).value);
    st, t := DecDate(f, text, 0, f.Size());
  }

  /** atcacert_set_signer_id. */
  method SetCertSignerId(def: Def, cert: array<byte>, certSize: nat, id: seq<byte>) returns (st: Status)
    requires certSize <= cert.Length && |id| == 2
    modifies cert
    ensures st == SetSignerId(def, old(cert[..certSize]), id).Code()
    ensures st.Ok? ==> cert[..certSize] == SetSignerId(def, old(cert[..certSize]), id).value
  {
    st := SetCertElement(def.signerId, cert, certSize, HexOctet(id[0]) + HexOctet(id[1]));
  }

  /** atcacert_get_signer_id. */
  method GetCertSignerId(def: Def, cert: array<byte>, certSize: nat, id: array<byte>, idAt: nat) returns (st: Status)
    requires certSize <= cert.Length && idAt + 2 <= id.Length && id != cert
    modifies id
    ensures st == GetSignerId(def, cert[..certSize]).Code()
    ensures st.Ok? ==> id[idAt..idAt + 2] == GetSignerId(def, cert[..certSize]).value
    ensures forall i :: 0 <= i < id.Length && !(idAt <= i < idAt + 2) ==> id[i] == old(id[i])
  {
    hide GetElement, OctetOfHex, Splice;
    var hex := new byte[4](_ => 0);
    ghost var blank: seq<byte> := hex[..];
    st := GetCertElement(def.signerId, cert, certSize, hex, 0, 4);
    if st != Ok {
      return;
    }
    SpliceInside(blank, 0, GetElement(def.signerId, cert[..certSize], 4).value);
    assert hex[..] == hex[0..0 + 4];
    var hi := OctetOfHex(hex[0], hex[1]);
    if hi.Failure? {
      return hi.error;
    }
    id[idAt] := hi.value;
    var lo := OctetOfHex(hex[2], hex[3]);
    if lo.Failure? {
      return lo.error;
    }
    id[idAt + 1] := lo.value;
    st := Ok;
  }

  /** atcacert_set_comp_cert. */
  method SetCertCompCert(def: Def, cert: array<byte>, certSize: nat, cap: nat, comp: array<byte>, compAt: nat)
    returns (st: Status, newSize: nat)
    requires certSize <= cap <= cert.Length && cap < MAX_CERT
    requires compAt + 72 <= comp.Length && comp != cert
    modifies cert
    ensures var r := SetCompCert(def, old(cert[..certSize]), cap, comp[compAt..compAt + 72]);
            && st == r.Code()
            && (st.Ok? ==> newSize == |r.value| <= cap && cert[..newSize] == r.value)
  {
    hide SetSignature, SetDate, SetSignerId, Unpack, Expiry, SigValue, CheckDef;
    newSize := certSize;
    var cc: Compressed := comp[compAt..compAt + 72];
    SliceOfSlice(comp[..], compAt, 72, 0, 64);
    var ok := CheckDef(def, cc);
    if ok.Failure? {
      return ok.error, newSize;
    }
    st, newSize := SetCertSignature(def, cert, certSize, cap, comp, compAt);
    if st != Ok {
      return;
    }
    var (issue, years) := Unpack(cc[64..67]);
    st := SetCertDate(def.issueDate, def.issueFormat, cert, newSize, issue);
    if st != Ok {
      return;
    }
    st := SetCertDate(def.expireDate, def.expireFormat, cert, newSize, Expiry(def.expireFormat, issue, years));
    if st != Ok {
      return;
    }
    st := SetCertSignerId(def, cert, newSize, cc[67..69]);
  }

  /** atcacert_get_comp_cert, filling 72 octets of comp. */
  method GetCertCompCert(def: Def, cert: array<byte>, certSize: nat, comp: array<byte>, compAt: nat) returns (st: Status)
    requires certSize <= cert.Length && compAt + 72 <= comp.Length && comp != cert
    modifies comp
    ensures st == GetCompCert(def, cert[..certSize]).Code()
    ensures st.Ok? ==> comp[compAt..compAt + 72] == GetCompCert(def, cert[..certSize]).value
  {
    hide GetSignature, GetDate, GetSignerId, Pack, Splice;
    st := GetCertSignature(def, cert, certSize, comp, compAt);
    if st != Ok {
      return;
    }
    ghost var sig: seq<byte> := comp[compAt..compAt + 64];
    var issue;
    st, issue := GetCertDate(def.issueDate, def.issueFormat, cert, certSize);
    if st == ElemMissing {
      issue := Tm(0, 0, 0, 1, 0, 100);
    } else if st != Ok {
      return;
    }
    var dates := Pack(issue, def.expireYears);
    if dates.Failure? {
      return dates.error;
    }
    PutPieces(comp, compAt, 64, dates.value);
    assert comp[compAt..compAt + 67] == sig + dates.value;
    st := GetCertSignerId(def, cert, certSize, comp, compAt + 67);
    var id: seq<byte>;
    if st == ElemMissing {
      PutPieces(comp, compAt, 67, [0, 0]);
      id := [0, 0];
    } else if st != Ok {
      return;
    } else {
      id := comp[compAt + 67..compAt + 67 + 2];
    }
    assert comp[compAt..compAt + 69] == sig + dates.value + id;
    PutPieces(comp, compAt, 69, Trailer(def));
    assert comp[compAt..compAt + 72] == sig + dates.value + id + Trailer(def);
    st := Ok;
  }

  /** Stores a piece behind the ones already collected. */
  method PutPieces(comp: array<byte>, at: nat, done: nat, piece: seq<byte>)
    requires at + done + |piece| <= comp.Length
    modifies comp
    ensures comp[at..at + done + |piece|] == old(comp[at..at + done]) + piece
  {
    CopyInto(comp, at + done, piece);
  }
}
