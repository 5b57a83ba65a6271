/**
 * Reading a certificate off the device: the build state of
 * src/cryptoauthlib/lib/atcacert/atcacert_def.c and the read loop of atcacert_client.c, with the
 * device as a map from regions to octets.
 */
module CertReader {
  import opened Bytes
  import opened DerLength
  import opened EcdsaSig
  import PosixTime
  import opened CertDates
  import opened DeviceLocs
  import opened CertDef
  import opened CertElements
  import opened CompCert
  import opened CertBuild

  // ----- the build state -----

  /** A script that consists of a compressed certificate's changes does what SetCompCert does. */
  lemma CompEditsApply(def: Def, cert: seq<byte>, cap: nat, cc: Compressed)
    requires |cert| <= cap < MAX_CERT
    ensures Apply(def, cert, cap, CompEdits(def, cc)) == SetCompCert(def, cert, cap, cc)
  {
    hide SetSignature, SetElement, EncodeDate, Unpack, Expiry, CheckDef, HexOctet, SigValue;
    if CheckDef(def, cc).Success? {
      var (issue, years) := Unpack(cc[64..67]);
      var expiry := Expiry(def.expireFormat, issue, years);
      var a, b := DateEdit(def.issueDate, EncodeDate(def.issueFormat, issue)), DateEdit(def.expireDate, EncodeDate(def.expireFormat, expiry));
      var id := [Put(def.signerId, HexOctet(cc[67]) + HexOctet(cc[68]))];
      ApplyConcat(def, cert, cap, [Sign(cc[..64])] + a + b, id);
      ApplyConcat(def, cert, cap, [Sign(cc[..64])] + a, b);
      ApplyConcat(def, cert, cap, [Sign(cc[..64])], a);
      var signed := SetSignature(def, cert, cap, cc[..64]);
      ApplySingle(def, cert, cap, Sign(cc[..64]));
      if signed.Success? {
        DateEditApply(def, def.issueDate, def.issueFormat, signed.value, cap, issue);
        var dated := SetDate(def.issueDate, def.issueFormat, signed.value, issue);
        if dated.Success? {
          DateEditApply(def, def.expireDate, def.expireFormat, dated.value, cap, expiry);
          var done := SetDate(def.expireDate, def.expireFormat, dated.value, expiry);
          if done.Success? {
            ApplySingle(def, done.value, cap, id[0]);
            assert [cc[67], cc[68]] == cc[67..69];
          }
        }
      }
    }
  }

  lemma ApplySingle(def: Def, cert: seq<byte>, cap: nat, e: Edit)
    requires |cert| <= cap < MAX_CERT
    ensures Apply(def, cert, cap, [e]) == ApplyOne(def, cert, cap, e)
  {
    hide ApplyOne;
    assert [e][1..] == [];
  }

  lemma DateEditApply(def: Def, loc: CertLoc, f: DateFormat, cert: seq<byte>, cap: nat, t: PosixTime.Tm)
    requires |cert| <= cap < MAX_CERT
    ensures Apply(def, cert, cap, DateEdit(loc, EncodeDate(f, t))) == SetDate(loc, f, cert, t)
  {
    hide EncodeDate, SetElement;
    var date := EncodeDate(f, t);
    if loc.count > 0 {
      ApplySingle(def, cert, cap, if date.Failure? then Fail(date.error) else Put(loc, date.value));
    }
  }

  /** atcacert_build_state_t. The certificate is the first size octets of a buffer of max. */
  class BuildState {
    var def: Def
    var cert: array<byte>
    var size: nat
    var max: nat
    var deviceSn: Option<seq<byte>>

    ghost predicate Valid()
      reads this
    {
      WellFormed(def) && 6 <= max < MAX_CERT && max <= cert.Length && size <= max
    }

    ghost function Cert(): seq<byte>
      requires Valid()
      reads this, cert
    {
      cert[..size]
    }

    constructor (def: Def, cert: array<byte>, cap: nat)
      requires WellFormed(def) && 6 <= cap < MAX_CERT && cap <= cert.Length
      ensures Valid() && this.def == def && this.cert == cert && size == max == cap && deviceSn == None
    {
      this.def, this.cert, this.size, this.max, this.deviceSn := def, cert, cap, cap, None;
    }

    /** atcacert_cert_build_start, after the state's fields are initialised. */
    method Start(env: Env, caKey: Option<seq<byte>>) returns (st: Status)
      requires Valid() && size == max && deviceSn == None
      modifies this`size, cert
      ensures Valid() && deviceSn == None
      ensures var r := Apply(def, StartCert(def, max), max, CaEdits(def, env, caKey));
              st == r.Code() && (st.Ok? ==> Cert() == r.value)
    {
      hide WellFormed, StartCert, KeyId, SetElement;
      FillTemplate();
      if caKey.Some? {
        ApplySingle(def, Cert(), max, CaEdits(def, env, caKey)[0]);
        st := SetCertElement(def.authKeyId, cert, size, KeyId(env, caKey.value));
        if st != Ok {
          return;
        }
      }
      st := Ok;
    }

    /**
     * Lines 300-316: the result of the length adjustment is ignored. (The C code passes the template's
     * size as the room for the length field, of which at most five octets are looked at.)
     */
    method FillTemplate()
      requires Valid() && size == max
      modifies this`size, cert
      ensures Valid() && Cert() == StartCert(def, max)
    {
      hide WellFormed, Splice, AdjustedLength, LengthOctets;
      StartSizes(def, max);
      if size > |def.template| {
        size := |def.template|;
      }
      var blank := def.template[..size];
      CopyTemplate(blank);
      assert blank == if max > |def.template| then def.template else def.template[..max];
      AdjustStart(blank);
    }

    method CopyTemplate(blank: seq<byte>)
      requires Valid() && |blank| == size
      modifies cert
      ensures Cert() == blank
    {
      CopyInto(cert, 0, blank);
    }

    method AdjustStart(blank: seq<byte>)
      requires Valid() && Cert() == blank && 6 <= size <= |def.template| < MAX_CERT
      modifies cert
      ensures var a := AdjustedLength(blank[1..], size - |def.template|);
              && (a.Failure? ==> Cert() == blank)
              && (a.Success? ==> |LengthOctets(a.value.0)| <= 5 && Cert() == Splice(blank, 1, LengthOctets(a.value.0)))
    {
      hide WellFormed, Splice, AdjustedLength, LengthOctets;
      ghost var was: seq<byte> := cert[..];
      SliceOfSlice(was, 0, size, 1, size);
      var st, used, len := AdjustLength(cert, 1, size - 1, size - |def.template|);
      if st.Ok? {
        AdjustedWidth(blank[1..], size - |def.template|);
        SplicePrefix(was, size, 1, LengthOctets(len));
      }
    }

    /** atcacert_cert_build_process; the data is the first loc.count octets of the buffer. */
    method Process(env: Env, loc: DeviceLoc, data: array<byte>) returns (st: Status)
      requires Valid() && loc.count <= data.Length && data != cert
      modifies this`size, this`deviceSn, cert
      ensures Valid()
      ensures var read := Read(loc, data[..loc.count]);
              var r := Apply(def, old(Cert()), max, ReadEdits(def, env, read));
              && st == r.Code()
              && (st.Ok? ==> Cert() == r.value && deviceSn == SeenSn(old(deviceSn), read))
    {
      hide WellFormed, Apply, SnPart, KeyPart, CompPart, ElementEdits, SameRegion;
      ghost var read, was := Read(loc, data[..loc.count]), Cert();
      ghost var a, b, c, d := SnPart(def, read), KeyPart(def, env, read), CompPart(def, read), ElementEdits(env, def.elements, read);
      ApplyConcat(def, was, max, a + b + c, d);
      ApplyConcat(def, was, max, a + b, c);
      ApplyConcat(def, was, max, a, b);
      st := ProcessSn(loc, data);
      if st != Ok {
        return;
      }
      st := ProcessKey(env, loc, data);
      if st != Ok {
        return;
      }
      st := ProcessComp(loc, data);
      if st != Ok {
        return;
      }
      st := ProcessElements(env, loc, data);
      if st != Ok {
        return;
      }
      if IsMatch(DeviceSnLoc, loc) {
        var at := DeviceSnLoc.offset - loc.offset;
        SliceOfSlice(data[..], 0, loc.count, at, at + 13);
        var found: seq<byte> := data[at..at + 13];
        deviceSn := Some(found[..4] + found[8..13]);
      }
    }

    method ProcessSn(loc: DeviceLoc, data: array<byte>) returns (st: Status)
      requires Valid() && loc.count <= data.Length && data != cert
      modifies cert
      ensures Valid()
      ensures var r := Apply(def, old(Cert()), max, SnPart(def, Read(loc, data[..loc.count])));
              st == r.Code() && (st.Ok? ==> Cert() == r.value)
    {
      hide WellFormed, SetElement, SameRegion;
      st := Ok;
      if IsMatch(def.certSnDevLoc, loc) {
        var at := def.certSnDevLoc.offset - loc.offset;
        var end := at + def.certSnDevLoc.count;
        SliceOfSlice(data[..], 0, loc.count, at, end);
        ApplySingle(def, Cert(), max, Put(def.certSn, data[at..end]));
        st := SetCertElement(def.certSn, cert, size, data[at..end]);
      }
    }

    method ProcessKey(env: Env, loc: DeviceLoc, data: array<byte>) returns (st: Status)
      requires Valid() && loc.count <= data.Length && data != cert
      modifies cert
      ensures Valid()
      ensures var r := Apply(def, old(Cert()), max, KeyPart(def, env, Read(loc, data[..loc.count])));
              st == r.Code() && (st.Ok? ==> Cert() == r.value)
    {
      hide WellFormed, SetElement, SameRegion, KeyId;
      st := Ok;
      if IsMatch(def.publicKeyDevLoc, loc) {
        var at := def.publicKeyDevLoc.offset - loc.offset;
        var end := at + def.publicKeyDevLoc.count;
        SliceOfSlice(data[..], 0, loc.count, at, end);
        var d: seq<byte> := data[at..end];
        if def.publicKeyDevLoc.count == 72 {
          st := SetKey(env, d[4..36] + d[40..72]);
        } else if def.publicKeyDevLoc.count == 64 {
          st := SetKey(env, d);
        } else {
          ApplySingle(def, Cert(), max, Fail(BadCert));
          return BadCert;
        }
      }
    }

    /** atcacert_set_subj_public_key. */
    method SetKey(env: Env, key: seq<byte>) returns (st: Status)
      requires Valid()
      modifies cert
      ensures Valid()
      ensures var r := Apply(def, old(Cert()), max, [Put(def.publicKey, key), Put(def.subjKeyId, KeyId(env, key))]);
              st == r.Code() && (st.Ok? ==> Cert() == r.value)
    {
      hide WellFormed, SetElement, KeyId;
      ghost var a, b := [Put(def.publicKey, key)], [Put(def.subjKeyId, KeyId(env, key))];
      assert [Put(def.publicKey, key), Put(def.subjKeyId, KeyId(env, key))] == a + b;
      ApplyConcat(def, Cert(), max, a, b);
      ApplySingle(def, Cert(), max, a[0]);
      st := SetCertElement(def.publicKey, cert, size, key);
      if st != Ok {
        return;
      }
      ApplySingle(def, Cert(), max, b[0]);
      st := SetCertElement(def.subjKeyId, cert, size, KeyId(env, key));
    }

    method ProcessComp(loc: DeviceLoc, data: array<byte>) returns (st: Status)
      requires Valid() && loc.count <= data.Length && data != cert
      modifies this`size, cert
      ensures Valid()
      ensures var r := Apply(def, old(Cert()), max, CompPart(def, Read(loc, data[..loc.count])));
              st == r.Code() && (st.Ok? ==> Cert() == r.value)
    {
      hide WellFormed, SetCompCert, SameRegion, CompEdits, SigValue, Apply;
      st := Ok;
      if IsMatch(def.compCertDevLoc, loc) {
        var at := def.compCertDevLoc.offset - loc.offset;
        ghost var d: seq<byte> := data[at..at + def.compCertDevLoc.count];
        SliceOfSlice(data[..], 0, loc.count, at, at + def.compCertDevLoc.count);
        if def.compCertDevLoc.count != 72 {
          WrongSize(Cert(), d);
          return BadCert;
        }
        CompEditsApply(def, Cert(), max, d);
        var newSize;
        st, newSize := SetCertCompCert(def, cert, size, max, data, at);
        if st != Ok {
          return;
        }
        size := newSize;
      } else {
        NoEdits(Cert());
      }
    }

    lemma NoEdits(c: seq<byte>)
      requires |c| <= max < MAX_CERT
      ensures Apply(def, c, max, []) == Success(c)
    {
    }

    lemma WrongSize(c: seq<byte>, d: seq<byte>)
      requires |c| <= max < MAX_CERT && |d| != 72
      ensures Apply(def, c, max, CompEdits(def, d)) == Failure(BadCert)
    {
      ApplySingle(def, c, max, Fail(BadCert));
    }

    method ProcessElements(env: Env, loc: DeviceLoc, data: array<byte>) returns (st: Status)
      requires Valid() && loc.count <= data.Length && data != cert
      modifies cert
      ensures Valid()
      ensures var r := Apply(def, old(Cert()), max, ElementEdits(env, def.elements, Read(loc, data[..loc.count])));
              st == r.Code() && (st.Ok? ==> Cert() == r.value)
    {
      hide WellFormed, Apply, SetElement, SameRegion, Transformed;
      ghost var read, was := Read(loc, data[..loc.count]), Cert();
      ghost var all := Apply(def, was, max, ElementEdits(env, def.elements, read));
      assert def.elements[0..] == def.elements;
      var i := 0;
      while i < |def.elements|
        invariant 0 <= i <= |def.elements|
        invariant Valid() && data[..loc.count] == read.data
        invariant Apply(def, Cert(), max, ElementEdits(env, def.elements[i..], read)) == all
      {
        var e := def.elements[i];
        assert def.elements[i..][1..] == def.elements[i + 1..];
        ElementStep(env, def.elements[i..], read, Cert());
        if IsMatch(e.deviceLoc, loc) {
          var at := e.deviceLoc.offset - loc.offset;
          var end := at + e.deviceLoc.count;
          SliceOfSlice(data[..], 0, loc.count, at, end);
          var t := Transformed(env, e, data[at..end]);
          if t.Failure? {
            return t.error;
          }
          st := SetCertElement(e.certLoc, cert, size, t.value);
          if st != Ok {
            return;
          }
        }
        i := i + 1;
      }
      NothingLeft(env, def.elements[i..], read, Cert());
      st := Ok;
    }

    lemma NothingLeft(env: Env, elements: seq<Element>, read: Read, c: seq<byte>)
      requires Complete(read) && elements == [] && |c| <= max < MAX_CERT
      ensures Apply(def, c, max, ElementEdits(env, elements, read)) == Success(c)
    {
    }

    /** The edits of the first element, then those of the others. */
    lemma ElementStep(env: Env, elements: seq<Element>, read: Read, c: seq<byte>)
      requires Complete(read) && elements != [] && |c| <= max < MAX_CERT
      ensures var e, rest := elements[0], ElementEdits(env, elements[1..], read);
              Apply(def, c, max, ElementEdits(env, elements, read)) ==
              match Extract(e.deviceLoc, read)
              case None => Apply(def, c, max, rest)
              case Some(d) =>
                var t := Transformed(env, e, d);
                if t.Failure? then Failure(t.error)
                else if SetElement(e.certLoc, c, t.value).Failure? then SetElement(e.certLoc, c, t.value)
                else Apply(def, SetElement(e.certLoc, c, t.value).value, max, rest)
    {
      hide Extract, Transformed, SetElement;
      var e, rest := elements[0], ElementEdits(env, elements[1..], read);
      match Extract(e.deviceLoc, read)
      case None =>
        assert [] + rest == rest;
      case Some(d) =>
        var t := Transformed(env, e, d);
        var edit := if t.Failure? then Fail(t.error) else Put(e.certLoc, t.value);
        ApplyConcat(def, c, max, [edit], rest);
        ApplySingle(def, c, max, edit);
    }

    /** atcacert_cert_build_finish. */
    method Finish(env: Env) returns (st: Status)
      requires Valid()
      modifies cert
      ensures Valid()
      ensures var r := GenSn(def, env, old(Cert()), deviceSn); st == r.Code() && (st.Ok? ==> Cert() == r.value)
    {
      hide WellFormed, SetElement, GeneratedSn;
      if def.snSource.Stored? || def.certSn.count == 0 {
        return Ok;
      }
      var sn;
      st, sn := GenCertSn(env);
      if st != Ok {
        return;
      }
      st := SetCertElement(def.certSn, cert, size, sn);
    }

    /** The switch of atcacert_gen_cert_sn. */
    method GenCertSn(env: Env) returns (st: Status, sn: seq<byte>)
      requires Valid()
      ensures st == GeneratedSn(def, env, Cert(), deviceSn).Code()
      ensures st.Ok? ==> GeneratedSn(def, env, Cert(), deviceSn) == Success(sn)
    {
      hide WellFormed, GetElement, GetSignerId, GetDate, Pack, MaskSn;
      sn := [];
      if def.snSource.DeviceSn? {
        if deviceSn.None? {
          return BadParams, [];
        }
        return Ok, [0x40] + deviceSn.value;
      }
      if def.snSource.SignerId? {
        var id := new byte[2](_ => 0);
        st := GetCertSignerId(def, cert, size, id, 0);
        if st != Ok {
          return;
        }
        return Ok, [0x40] + id[0..0 + 2];
      }
      if def.snSource.NeedsDeviceSn() && deviceSn.None? {
        return BadParams, [];
      }
      if def.certSn.count > 32 {
        return UnexpectedElemSize, [];
      }
      var seed: seq<byte>;
      if def.snSource.NeedsDeviceSn() {
        seed := deviceSn.value;
      } else {
        var key := new byte[64](_ => 0);
        ghost var blank: seq<byte> := key[..];
        st := GetCertElement(def.publicKey, cert, size, key, 0, 64);
        if st != Ok {
          return;
        }
        SpliceInside(blank, 0, GetElement(def.publicKey, Cert(), 64).value);
        seed := key[0..0 + 64];
      }
      var issue;
      st, issue := GetCertDate(def.issueDate, def.issueFormat, cert, size);
      if st != Ok {
        return;
      }
      var dates := Pack(issue, def.expireYears);
      if dates.Failure? {
        return dates.error, [];
      }
      sn := MaskSn(def.snSource, env.sha256(seed + dates.value))[..def.certSn.count];
      st := Ok;
    }

    static lemma StartSizes(def: Def, cap: nat)
      requires WellFormed(def) && 6 <= cap
      ensures 6 < |def.template| < MAX_CERT
    {
    }
  }
}
