/**
 * Which octets a built certificate holds where: every element a definition names is one place, every
 * place has one source on the device, and what lies in no place is the template's
 * (src/cryptoauthlib/lib/atcacert/atcacert_def.c, lines 273-534).
 */
module CertPlaces {
  import opened Bytes
  import opened DerLength
  import opened EcdsaSig
  import opened CertDates
  import opened DeviceLocs
  import opened CertDef
  import opened CertElements
  import opened CompCert
  import opened CertBuild
  import opened BuildLaws

  /** The certificate has these octets at the location. */
  predicate Shows(c: seq<byte>, loc: CertLoc, data: seq<byte>) {
    loc.End() <= |c| && c[loc.offset..loc.End()] == data
  }

  const KEY: nat := 0
  const KEY_ID: nat := 1
  const CA_KEY_ID: nat := 2
  const ISSUED: nat := 3
  const EXPIRES: nat := 4
  const SIGNER: nat := 5
  const SERIAL: nat := 6
  const FURTHER: nat := 7

  /** Everything a build can write between the header and the signature. */
  function Places(def: Def): (places: seq<CertLoc>)
    ensures |places| == FURTHER + |def.elements|
  {
    [def.publicKey, def.subjKeyId, def.authKeyId, def.issueDate, def.expireDate, def.signerId, def.certSn]
    + ElementPlaces(def.elements)
  }

  /** An element without a place on the device is never written. */
  function ElementPlaces(elements: seq<Element>): (places: seq<CertLoc>)
    ensures |places| == |elements|
    ensures forall i :: 0 <= i < |elements| ==>
              places[i] == if elements[i].deviceLoc.IsNull() then CertLoc(0, 0) else elements[i].certLoc
  {
    if elements == [] then []
    else [if elements[0].deviceLoc.IsNull() then CertLoc(0, 0) else elements[0].certLoc] + ElementPlaces(elements[1..])
  }

  /** The k-th place exists and shares no octet with another one. */
  ghost predicate Alone(def: Def, k: nat) {
    && k < |Places(def)| && Places(def)[k].count > 0
    && forall j :: 0 <= j < |Places(def)| && j != k && Places(def)[j].count > 0 ==> Apart(Places(def)[j], Places(def)[k])
  }

  /** Where on the device the k-th place comes from; the authority key is the caller's. */
  function Source(def: Def, k: nat): DeviceLoc
    requires k < |Places(def)| && k != CA_KEY_ID
  {
    if k == KEY || k == KEY_ID then def.publicKeyDevLoc
    else if k == ISSUED || k == EXPIRES || k == SIGNER then def.compCertDevLoc
    else if k == SERIAL then def.certSnDevLoc
    else def.elements[k - FURTHER].deviceLoc
  }

  function PaddedKey(held: seq<byte>): Option<seq<byte>> {
    if |held| == 72 then Some(held[4..36] + held[40..72]) else if |held| == 64 then Some(held) else None
  }

  function DateDue(f: DateFormat, held: seq<byte>, last: bool): Option<seq<byte>> {
    if |held| != 72 then None
    else
      var (issue, years) := Unpack(held[64..67]);
      match EncodeDate(f, if last then Expiry(f, issue, years) else issue)
      case Success(text) => Some(text)
      case Failure(_) => None
  }

  /** What belongs in the k-th place when its source holds these octets, if anything does. */
  function Due(def: Def, env: Env, k: nat, held: seq<byte>): Option<seq<byte>>
    requires k < |Places(def)|
  {
    if k == KEY then PaddedKey(held)
    else if k == KEY_ID then (match PaddedKey(held) case None => None case Some(key) => Some(KeyId(env, key)))
    else if k == CA_KEY_ID then Some(KeyId(env, held))
    else if k == ISSUED then DateDue(def.issueFormat, held, false)
    else if k == EXPIRES then DateDue(def.expireFormat, held, true)
    else if k == SIGNER then if |held| != 72 then None else Some(HexOctet(held[67]) + HexOctet(held[68]))
    else if k == SERIAL then Some(held)
    else match Transformed(env, def.elements[k - FURTHER], held) case Success(d) => Some(d) case Failure(_) => None
  }

  /** The edit writes some place, and if that is the k-th one, what is due there. */
  ghost predicate Placed(def: Def, k: nat, data: Option<seq<byte>>, e: Edit) {
    e.Put? && e.loc.count > 0 ==> exists j: nat :: WritesPlace(def, j, k, data, e)
  }

  ghost predicate WritesPlace(def: Def, j: nat, k: nat, data: Option<seq<byte>>, e: Edit) {
    e.Put? && j < |Places(def)| && e.loc == Places(def)[j] && (j == k ==> data == Some(e.data))
  }

  ghost predicate AllPlaced(def: Def, k: nat, data: Option<seq<byte>>, edits: seq<Edit>) {
    forall e :: e in edits ==> Placed(def, k, data, e)
  }

  /** The edits write the k-th place, or fail. */
  ghost predicate Writes(def: Def, k: nat, data: Option<seq<byte>>, edits: seq<Edit>)
    requires k < |Places(def)|
  {
    HasFail(edits) || (data.Some? && Put(Places(def)[k], data.value) in edits)
  }

  // ----- one read -----

  /** Whenever the read covers the source, it shows held there. */
  ghost predicate Tells(r: Read, dest: DeviceLoc, held: seq<byte>)
    requires Complete(r)
  {
    Extract(dest, r).Some? ==> Extract(dest, r).value == held
  }

  lemma ReadPlaced(def: Def, env: Env, r: Read, k: nat, held: seq<byte>, d: Option<seq<byte>>)
    requires Complete(r) && k < |Places(def)|
    requires k != CA_KEY_ID ==> Tells(r, Source(def, k), held) && d == Due(def, env, k, held)
    ensures AllPlaced(def, k, d, ReadEdits(def, env, r))
    ensures k != CA_KEY_ID && Places(def)[k].count > 0 && Extract(Source(def, k), r).Some? ==> Writes(def, k, d, ReadEdits(def, env, r))
  {
    hide Extract, Due, SnPart, KeyPart, CompPart, ElementEdits, Placed, Places, WritesPlace;
    SnPlaced(def, env, r, k, held, d);
    KeyPlaced(def, env, r, k, held, d);
    CompPlaced(def, env, r, k, held, d);
    assert def.elements[0..] == def.elements;
    ElementsPlaced(def, env, r, k, held, d, 0);
    JoinPlaced(def, k, d, SnPart(def, r), KeyPart(def, env, r), CompPart(def, r), ElementEdits(env, def.elements, r));
  }

  lemma JoinPlaced(def: Def, k: nat, d: Option<seq<byte>>, a: seq<Edit>, b: seq<Edit>, x: seq<Edit>, y: seq<Edit>)
    requires k < |Places(def)|
    requires AllPlaced(def, k, d, a) && AllPlaced(def, k, d, b) && AllPlaced(def, k, d, x) && AllPlaced(def, k, d, y)
    ensures AllPlaced(def, k, d, a + b + x + y)
    ensures Writes(def, k, d, a) || Writes(def, k, d, b) || Writes(def, k, d, x) || Writes(def, k, d, y) ==>
              Writes(def, k, d, a + b + x + y)
  {
    hide Placed, Places;
    assert forall e :: e in a || e in b || e in x || e in y ==> e in a + b + x + y;
  }

  lemma SnPlaced(def: Def, env: Env, r: Read, k: nat, held: seq<byte>, d: Option<seq<byte>>)
    requires Complete(r) && k < |Places(def)|
    requires k == SERIAL ==> Tells(r, def.certSnDevLoc, held) && d == Due(def, env, k, held)
    ensures AllPlaced(def, k, d, SnPart(def, r))
    ensures k == SERIAL && Extract(def.certSnDevLoc, r).Some? ==> Writes(def, k, d, SnPart(def, r))
  {
    hide Extract;
    if Extract(def.certSnDevLoc, r).Some? {
      var e := Put(def.certSn, Extract(def.certSnDevLoc, r).value);
      assert WritesPlace(def, SERIAL, k, d, e);
      assert e in SnPart(def, r);
    }
  }

  lemma KeyPlaced(def: Def, env: Env, r: Read, k: nat, held: seq<byte>, d: Option<seq<byte>>)
    requires Complete(r) && k < |Places(def)|
    requires k == KEY || k == KEY_ID ==> Tells(r, def.publicKeyDevLoc, held) && d == Due(def, env, k, held)
    ensures AllPlaced(def, k, d, KeyPart(def, env, r))
    ensures (k == KEY || k == KEY_ID) && Extract(def.publicKeyDevLoc, r).Some? ==> Writes(def, k, d, KeyPart(def, env, r))
  {
    hide Extract, KeyId;
    if Extract(def.publicKeyDevLoc, r).Some? {
      var found := Extract(def.publicKeyDevLoc, r).value;
      var edits := KeyEdits(def, env, found);
      assert edits[0] in edits;
      if PaddedKey(found).Some? {
        assert edits[1] in edits;
        assert WritesPlace(def, KEY, k, d, edits[0]);
        assert WritesPlace(def, KEY_ID, k, d, edits[1]);
      }
    }
  }

  lemma CompPlaced(def: Def, env: Env, r: Read, k: nat, held: seq<byte>, d: Option<seq<byte>>)
    requires Complete(r) && k < |Places(def)|
    requires FromComp(k) ==> Tells(r, def.compCertDevLoc, held) && d == Due(def, env, k, held)
    ensures AllPlaced(def, k, d, CompPart(def, r))
    ensures FromComp(k) && Places(def)[k].count > 0 && Extract(def.compCertDevLoc, r).Some? ==> Writes(def, k, d, CompPart(def, r))
  {
    hide Extract, CompEdits, Due, Placed, Places;
    if Extract(def.compCertDevLoc, r).Some? {
      CompEditsPlaced(def, env, k, Extract(def.compCertDevLoc, r).value, d);
    }
  }

  predicate FromComp(k: nat) { k == ISSUED || k == EXPIRES || k == SIGNER }

  lemma CompEditsPlaced(def: Def, env: Env, k: nat, found: seq<byte>, d: Option<seq<byte>>)
    requires k < |Places(def)|
    requires FromComp(k) ==> d == Due(def, env, k, found)
    ensures AllPlaced(def, k, d, CompEdits(def, found))
    ensures FromComp(k) && Places(def)[k].count > 0 ==> Writes(def, k, d, CompEdits(def, found))
  {
    hide EncodeDate, Unpack, Expiry, CheckDef, HexOctet, Placed, DateEdit, DateDue;
    var edits := CompEdits(def, found);
    if |found| != 72 || CheckDef(def, found).Failure? {
      assert edits[0] in edits && edits[0].Fail?;
      OnlyFails(def, k, d, edits);
    } else {
      var (issue, years) := Unpack(found[64..67]);
      var last := Expiry(def.expireFormat, issue, years);
      var sign, id := [Sign(found[..64])], [Put(def.signerId, HexOctet(found[67]) + HexOctet(found[68]))];
      var a, b := DateEdit(def.issueDate, EncodeDate(def.issueFormat, issue)), DateEdit(def.expireDate, EncodeDate(def.expireFormat, last));
      DateDueIs(def.issueFormat, found, false);
      DateDueIs(def.expireFormat, found, true);
      DatePlaced(def, k, ISSUED, EncodeDate(def.issueFormat, issue), d);
      DatePlaced(def, k, EXPIRES, EncodeDate(def.expireFormat, last), d);
      SignPlaced(def, k, d, found[..64]);
      IdPlaced(def, k, d, id[0]);
      JoinPlaced(def, k, d, sign, a, b, id);
    }
  }

  lemma OnlyFails(def: Def, k: nat, d: Option<seq<byte>>, edits: seq<Edit>)
    requires forall e :: e in edits ==> e.Fail?
    ensures AllPlaced(def, k, d, edits)
  {
  }

  lemma SignPlaced(def: Def, k: nat, d: Option<seq<byte>>, sig: RawSig)
    ensures AllPlaced(def, k, d, [Sign(sig)])
  {
  }

  lemma IdPlaced(def: Def, k: nat, d: Option<seq<byte>>, e: Edit)
    requires k < |Places(def)| && e.Put? && e.loc == def.signerId && (k == SIGNER ==> d == Some(e.data))
    ensures AllPlaced(def, k, d, [e]) && (k == SIGNER ==> Writes(def, k, d, [e]))
  {
    assert WritesPlace(def, SIGNER, k, d, e);
    assert e in [e];
  }

  lemma DateDueIs(f: DateFormat, held: seq<byte>, last: bool)
    requires |held| == 72
    ensures var (issue, years) := Unpack(held[64..67]);
            DateDue(f, held, last) == TextOf(EncodeDate(f, if last then Expiry(f, issue, years) else issue))
  {
    hide EncodeDate, Unpack, Expiry;
  }

  function TextOf(date: Result<seq<byte>>): Option<seq<byte>> {
    if date.Success? then Some(date.value) else None
  }

  lemma DatePlaced(def: Def, k: nat, j: nat, date: Result<seq<byte>>, d: Option<seq<byte>>)
    requires (j == ISSUED || j == EXPIRES) && k < |Places(def)| && (k == j ==> d == TextOf(date))
    ensures AllPlaced(def, k, d, DateEdit(Places(def)[j], date))
    ensures k == j && Places(def)[j].count > 0 ==> Writes(def, k, d, DateEdit(Places(def)[j], date))
  {
    hide Places;
    var edits := DateEdit(Places(def)[j], date);
    if edits != [] {
      assert edits[0] in edits;
      if date.Success? {
        assert WritesPlace(def, j, k, d, edits[0]);
      }
    }
  }

  lemma {:induction false} ElementsPlaced(def: Def, env: Env, r: Read, k: nat, held: seq<byte>, d: Option<seq<byte>>, i: nat)
    requires Complete(r) && k < |Places(def)| && i <= |def.elements|
    requires FURTHER <= k ==> Tells(r, def.elements[k - FURTHER].deviceLoc, held) && d == Due(def, env, k, held)
    ensures AllPlaced(def, k, d, ElementEdits(env, def.elements[i..], r))
    ensures FURTHER + i <= k && Extract(def.elements[k - FURTHER].deviceLoc, r).Some? ==>
              Writes(def, k, d, ElementEdits(env, def.elements[i..], r))
    decreases |def.elements| - i
  {
    hide Due, Placed, Extract, Places, AllPlaced, Writes, OneElement, ElementEdits;
    ElementsSplit(env, def.elements, r, i);
    if i == |def.elements| {
      OnlyFails(def, k, d, []);
    } else {
      ElementsPlaced(def, env, r, k, held, d, i + 1);
      ElementPlaced(def, env, r, k, held, d, i);
      var first, rest := OneElement(env, def.elements[i], r), ElementEdits(env, def.elements[i + 1..], r);
      OnlyFails(def, k, d, []);
      JoinPlaced(def, k, d, first, rest, [], []);
      assert first + rest + [] + [] == first + rest;
    }
  }

  lemma ElementsSplit(env: Env, elements: seq<Element>, r: Read, i: nat)
    requires Complete(r) && i <= |elements|
    ensures ElementEdits(env, elements[i..], r)
            == if i == |elements| then [] else OneElement(env, elements[i], r) + ElementEdits(env, elements[i + 1..], r)
  {
    hide Transformed, Extract;
    if i < |elements| {
      assert elements[i..][1..] == elements[i + 1..];
    }
  }

  function OneElement(env: Env, e: Element, r: Read): seq<Edit>
    requires Complete(r)
  {
    match Extract(e.deviceLoc, r)
    case None => []
    case Some(d) => var t := Transformed(env, e, d); if t.Failure? then [Fail(t.error)] else [Put(e.certLoc, t.value)]
  }

  lemma ElementPlaced(def: Def, env: Env, r: Read, k: nat, held: seq<byte>, d: Option<seq<byte>>, i: nat)
    requires Complete(r) && k < |Places(def)| && i < |def.elements|
    requires FURTHER <= k ==> Tells(r, def.elements[k - FURTHER].deviceLoc, held) && d == Due(def, env, k, held)
    ensures AllPlaced(def, k, d, OneElement(env, def.elements[i], r))
    ensures FURTHER + i == k && Extract(def.elements[i].deviceLoc, r).Some? ==>
              Writes(def, k, d, OneElement(env, def.elements[i], r))
  {
    hide Transformed, SameRegion;
    var edits := OneElement(env, def.elements[i], r);
    if edits != [] {
      assert edits[0] in edits;
      if edits[0].Put? {
        assert WritesPlace(def, FURTHER + i, k, d, edits[0]);
      }
    }
  }

  // ----- a whole build -----

  /** What the reads say the device holds at a place. */
  ghost predicate AllTell(inputs: seq<Read>, dest: DeviceLoc, held: seq<byte>)
    requires AllComplete(inputs)
  {
    forall i :: 0 <= i < |inputs| ==> Tells(inputs[i], dest, held)
  }

  ghost predicate SomeReads(inputs: seq<Read>, dest: DeviceLoc)
    requires AllComplete(inputs)
  {
    exists i :: 0 <= i < |inputs| && Extract(dest, inputs[i]).Some?
  }

  lemma {:induction false} InputsPlaced(def: Def, env: Env, inputs: seq<Read>, k: nat, held: seq<byte>, d: Option<seq<byte>>)
    requires AllComplete(inputs) && k < |Places(def)|
    requires k != CA_KEY_ID ==> AllTell(inputs, Source(def, k), held) && d == Due(def, env, k, held)
    ensures AllPlaced(def, k, d, AllEdits(def, env, inputs))
    ensures k != CA_KEY_ID && Places(def)[k].count > 0 && SomeReads(inputs, Source(def, k)) ==> Writes(def, k, d, AllEdits(def, env, inputs))
  {
    hide Extract, Due, Placed, Places, AllPlaced, Writes, ReadEdits, Source;
    OnlyFails(def, k, d, []);
    if inputs != [] {
      var first, rest := ReadEdits(def, env, inputs[0]), AllEdits(def, env, inputs[1..]);
      InputsPlaced(def, env, inputs[1..], k, held, d);
      ReadPlaced(def, env, inputs[0], k, held, d);
      JoinPlaced(def, k, d, first, rest, [], []);
      assert first + rest + [] + [] == first + rest;
      if k != CA_KEY_ID && Places(def)[k].count > 0 && SomeReads(inputs, Source(def, k)) && Extract(Source(def, k), inputs[0]).None? {
        var i :| 0 <= i < |inputs| && Extract(Source(def, k), inputs[i]).Some?;
        assert inputs[1..][i - 1] == inputs[i];
      }
    }
  }

  /** The source of the k-th place holds these octets, as far as this build can see, and it is looked at. */
  ghost predicate Supplied(def: Def, caKey: Option<seq<byte>>, inputs: seq<Read>, k: nat, held: seq<byte>)
    requires AllComplete(inputs) && k < |Places(def)|
  {
    if k == CA_KEY_ID then caKey == Some(held)
    else AllTell(inputs, Source(def, k), held) && SomeReads(inputs, Source(def, k))
  }

  lemma ScriptPlaced(def: Def, env: Env, caKey: Option<seq<byte>>, inputs: seq<Read>, k: nat, held: seq<byte>)
    requires AllComplete(inputs) && k < |Places(def)| && Places(def)[k].count > 0 && Supplied(def, caKey, inputs, k, held)
    ensures var d, script := Due(def, env, k, held), Script(def, env, caKey, inputs);
            AllPlaced(def, k, d, script) && Writes(def, k, d, script)
  {
    hide Due, Placed, Places, AllPlaced, Writes, CaEdits, AllEdits;
    var d := Due(def, env, k, held);
    CaPlaced(def, env, caKey, k, held);
    OnlyFails(def, k, d, []);
    InputsPlaced(def, env, inputs, k, held, d);
    var a, b := CaEdits(def, env, caKey), AllEdits(def, env, inputs);
    JoinPlaced(def, k, d, a, b, [], []);
    assert a + b + [] + [] == a + b;
  }

  lemma CaPlaced(def: Def, env: Env, caKey: Option<seq<byte>>, k: nat, held: seq<byte>)
    requires k < |Places(def)| && (k == CA_KEY_ID ==> caKey == Some(held))
    ensures AllPlaced(def, k, Due(def, env, k, held), CaEdits(def, env, caKey))
    ensures k == CA_KEY_ID ==> Writes(def, k, Due(def, env, k, held), CaEdits(def, env, caKey))
  {
    hide KeyId;
    if caKey.Some? {
      var e := CaEdits(def, env, caKey)[0];
      assert WritesPlace(def, CA_KEY_ID, k, Due(def, env, k, held), e);
      assert e in CaEdits(def, env, caKey);
    }
  }

  /** A place that shares no octet with another one is disturbed by no edit. */
  lemma AloneUndisturbed(def: Def, k: nat, d: Option<seq<byte>>, edits: seq<Edit>)
    requires Alone(def, k) && d.Some? && AllPlaced(def, k, d, edits)
    ensures Undisturbed(edits, Places(def)[k], d.value)
  {
    hide Places, Apart;
    var loc := Places(def)[k];
    forall e | e in edits && e.Put? ensures HarmlessPut(e, loc, d.value) {
      assert Placed(def, k, d, e);
      if e.loc.count > 0 {
        var j: nat :| WritesPlace(def, j, k, d, e);
        if j != k {
          assert Apart(Places(def)[j], loc);
        }
      }
    }
  }

  /** Where a place lies. */
  lemma PlaceInBody(def: Def, k: nat)
    requires WellFormed(def) && k < |Places(def)|
    ensures InBody(Places(def)[k], def)
  {
    hide CanonicalTlv;
    if k >= FURTHER {
      assert InBody(def.elements[k - FURTHER].certLoc, def);
    }
  }

  /** Before the serial number is generated, a place holds what is due there. */
  lemma EditedShows(def: Def, env: Env, cap: nat, caKey: Option<seq<byte>>, inputs: seq<Read>, k: nat, held: seq<byte>)
    requires WellFormed(def) && 6 <= cap < MAX_CERT && AllComplete(inputs) && Alone(def, k)
    requires Supplied(def, caKey, inputs, k, held) && Edited(def, env, cap, caKey, inputs).Success?
    ensures Due(def, env, k, held).Some?
    ensures Shows(Edited(def, env, cap, caKey, inputs).value, Places(def)[k], Due(def, env, k, held).value)
  {
    hide Apply, StartCert, Script, Places, Due, WellFormed, AllPlaced, Supplied, InBody, Undisturbed, Shows;
    var d, script, c, loc := Due(def, env, k, held), Script(def, env, caKey, inputs), StartCert(def, cap), Places(def)[k];
    ScriptPlaced(def, env, caKey, inputs, k, held);
    if HasFail(script) {
      FailFails(def, c, cap, script);
    }
    AloneUndisturbed(def, k, d, script);
    PlaceInBody(def, k);
    BodyAfterHeader(def);
    WhatIsPutStays(def, c, cap, script, loc, d.value);
    GotIsShown(loc, Edited(def, env, cap, caKey, inputs).value, d.value);
  }

  lemma GotIsShown(loc: CertLoc, c: seq<byte>, data: seq<byte>)
    requires GetElement(loc, c, |data|) == Success(data)
    ensures Shows(c, loc, data)
  {
  }

  /** Generating the serial number changes no other octet. */
  lemma SerialOnly(def: Def, env: Env, c: seq<byte>, sn: Option<seq<byte>>, loc: CertLoc, data: seq<byte>)
    requires GenSn(def, env, c, sn).Success? && Shows(c, loc, data)
    requires def.certSn.count == 0 || def.snSource.Stored? || Apart(def.certSn, loc)
    ensures Shows(GenSn(def, env, c, sn).value, loc, data)
  {
    hide GeneratedSn;
    var r := GenSn(def, env, c, sn).value;
    if !def.snSource.Stored? && def.certSn.count > 0 {
      ElementFraming(def.certSn, c, GeneratedSn(def, env, c, sn).value, loc);
      assert r[loc.offset..loc.End()] == c[loc.offset..loc.End()];
    }
  }

  /**
   * A finished certificate holds in every place that shares no octet with another one exactly what is
   * due there; a generated serial number is the subject of its own laws.
   */
  lemma BuiltShows(def: Def, env: Env, cap: nat, caKey: Option<seq<byte>>, inputs: seq<Read>, c: seq<byte>, k: nat, held: seq<byte>)
    requires WellFormed(def) && 6 <= cap < MAX_CERT && AllComplete(inputs) && Alone(def, k)
    requires Supplied(def, caKey, inputs, k, held) && BuildCert(def, env, cap, caKey, inputs) == Success(c)
    requires k == SERIAL ==> def.snSource.Stored?
    ensures Due(def, env, k, held).Some? && Shows(c, Places(def)[k], Due(def, env, k, held).value)
  {
    hide BuildCert, Edited, GenSn, Due, WellFormed, Supplied, Shows;
    BuildIsEditedThenSn(def, env, cap, caKey, inputs);
    EditedShows(def, env, cap, caKey, inputs, k, held);
    assert Places(def)[SERIAL] == def.certSn;
    SerialOnly(def, env, Edited(def, env, cap, caKey, inputs).value, FinalSn(None, inputs), Places(def)[k], Due(def, env, k, held).value);
  }

  // ----- everything else is the template's -----

  /** No place has the octet at i. */
  ghost predicate InNoPlace(def: Def, i: nat) {
    forall j :: 0 <= j < |Places(def)| && Places(def)[j].count > 0 ==> !(Places(def)[j].offset <= i < Places(def)[j].End())
  }

  ghost predicate Misses(e: Edit, i: nat) {
    e.Put? && e.loc.count > 0 ==> !(e.loc.offset <= i < e.loc.End())
  }

  ghost predicate AllMiss(edits: seq<Edit>, i: nat) {
    forall e :: e in edits ==> Misses(e, i)
  }

  lemma ScriptMisses(def: Def, env: Env, caKey: Option<seq<byte>>, inputs: seq<Read>, i: nat)
    requires AllComplete(inputs) && InNoPlace(def, i)
    ensures AllMiss(Script(def, env, caKey, inputs), i)
  {
    hide Due, Placed, Places, CaEdits, AllEdits;
    var held := if caKey.Some? then caKey.value else [];
    var d := Due(def, env, CA_KEY_ID, held);
    if caKey.Some? {
      CaPlaced(def, env, caKey, CA_KEY_ID, held);
    } else {
      NoCaEdits(def, env);
    }
    InputsPlaced(def, env, inputs, CA_KEY_ID, held, d);
    forall e | e in Script(def, env, caKey, inputs) ensures Misses(e, i) {
      PlacedMisses(def, CA_KEY_ID, d, e, i);
    }
  }

  lemma NoCaEdits(def: Def, env: Env)
    ensures CaEdits(def, env, None) == []
  {
  }

  lemma PlacedMisses(def: Def, k: nat, d: Option<seq<byte>>, e: Edit, i: nat)
    requires Placed(def, k, d, e) && InNoPlace(def, i)
    ensures Misses(e, i)
  {
    hide Places;
    if e.Put? && e.loc.count > 0 {
      var j: nat :| WritesPlace(def, j, k, d, e);
      assert !(Places(def)[j].offset <= i < Places(def)[j].End());
    }
  }

  /** Behind the header and in front of the signature an octet that no edit writes stays as it is. */
  lemma {:induction false} OctetStays(def: Def, w: nat, c: seq<byte>, cap: nat, edits: seq<Edit>, i: nat)
    requires |c| <= cap < MAX_CERT && Announces(def, w, c) && EditsInBody(def, edits) && AllMiss(edits, i)
    requires i == 0 || 1 + w <= i < def.signature.offset
    requires Apply(def, c, cap, edits).Success?
    ensures var r := Apply(def, c, cap, edits).value; Announces(def, w, r) && r[i] == c[i]
    decreases |edits|
  {
    hide ApplyOne, Announces, EditInBody, Misses;
    AnnouncesMeans(def, w, c);
    if edits != [] {
      var e := edits[0];
      assert e in edits && EditInBody(def, e);
      OneStays(def, w, c, cap, e, i);
      OctetStays(def, w, ApplyOne(def, c, cap, e).value, cap, edits[1..], i);
    }
  }

  /** A header of this width announces the certificate, which reaches the signature. */
  predicate Announces(def: Def, w: nat, c: seq<byte>) {
    Header(c, w) && w <= 5 && 6 <= def.signature.offset < |c|
  }

  lemma AnnouncesMeans(def: Def, w: nat, c: seq<byte>)
    requires Announces(def, w, c)
    ensures 6 <= def.signature.offset < |c| && w <= 5
  {
  }

  lemma OneStays(def: Def, w: nat, c: seq<byte>, cap: nat, e: Edit, i: nat)
    requires |c| <= cap < MAX_CERT && Announces(def, w, c) && EditInBody(def, e) && Misses(e, i)
    requires i == 0 || 1 + w <= i < def.signature.offset
    requires ApplyOne(def, c, cap, e).Success?
    ensures var r := ApplyOne(def, c, cap, e).value; Announces(def, w, r) && r[i] == c[i]
  {
    hide Header, LengthOctets, SigValue, SetSignature, SetElement, Splice;
    if e.Put? {
      PutKeepsHeader(def, w, c, e.loc, e.data);
      ElementFraming(e.loc, c, e.data, e.loc);
      NoPut(e.loc, c, e.data);
    } else if e.Sign? {
      SignStays(def, w, c, cap, e.sig, i);
    }
  }

  lemma NoPut(loc: CertLoc, c: seq<byte>, data: seq<byte>)
    ensures loc.count == 0 ==> SetElement(loc, c, data) == Success(c)
  {
  }

  lemma SignStays(def: Def, w: nat, c: seq<byte>, cap: nat, sig: RawSig, i: nat)
    requires |c| <= cap < MAX_CERT && Announces(def, w, c) && (i == 0 || 1 + w <= i < def.signature.offset)
    requires SetSignature(def, c, cap, sig).Success?
    ensures var r := SetSignature(def, c, cap, sig).value; Announces(def, w, r) && r[i] == c[i]
  {
    hide LengthOctets, SigValue, SetSignature, Splice, CanonicalTlv, HeaderWidth;
    HeaderIsCanonical(c, w);
    ResignIff(def, c, cap, sig);
    SigOctetCount(sig);
    var grown, field := Resigned(def, c, sig), LengthOctets(def.signature.offset + |SigValue(sig)| - 1 - w);
    SpliceInside(grown, 1, field);
    SpliceOutside(grown, 1, field);
  }

  lemma SigOctetCount(sig: RawSig)
    ensures 11 <= |SigValue(sig)| <= 75
  {
  }

  /**
   * Every octet of a finished, signed certificate that lies in no place is the template's, except for
   * the length field and the signature.
   */
  lemma BuiltKeepsTemplate(def: Def, env: Env, cap: nat, caKey: Option<seq<byte>>, inputs: seq<Read>, c: seq<byte>, cc: Compressed, i: nat)
    requires WellFormed(def) && 6 <= cap < MAX_CERT && AllComplete(inputs)
    requires Carries(def, inputs, cc) && Mentions(def, inputs)
    requires BuildCert(def, env, cap, caKey, inputs) == Success(c)
    requires InNoPlace(def, i) && (i == 0 || 1 + HeaderWidth(def.template) <= i < def.signature.offset)
    ensures i < |c| && c[i] == def.template[i]
  {
    hide Apply, StartCert, BuildCert, Script, GenSn, Carries, Mentions, EditsInBody, HasSign, SignsOnly, LengthOctets, Places;
    hide AllMiss, CheckDef, CompEdits, SigValue, IsTlv;
    var script, w, start := Script(def, env, caKey, inputs), HeaderWidth(def.template), StartCert(def, cap);
    BuildIsEditedThenSn(def, env, cap, caKey, inputs);
    ScriptSigns(def, env, cap, caKey, inputs, cc);
    StartedReady(def, env, cap, caKey, inputs);
    BodyAfterHeader(def);
    ScriptMisses(def, env, caKey, inputs, i);
    OctetStays(def, w, start, cap, script, i);
    StartIsTemplate(def, start, i);
    SerialMisses(def, env, Edited(def, env, cap, caKey, inputs).value, FinalSn(None, inputs), i);
  }

  lemma StartIsTemplate(def: Def, start: seq<byte>, i: nat)
    requires WellFormed(def) && Ready(def, start)
    requires i == 0 || 1 + HeaderWidth(def.template) <= i < def.signature.offset
    ensures start[i] == def.template[i]
  {
    hide Header, IsTlv, LengthOctets, InBody;
    var w, at := HeaderWidth(def.template), def.signature.offset;
    if i > 0 {
      assert start[i] == start[1 + w..at][i - 1 - w] && def.template[i] == def.template[1 + w..at][i - 1 - w];
    }
  }

  lemma SerialMisses(def: Def, env: Env, c: seq<byte>, sn: Option<seq<byte>>, i: nat)
    requires GenSn(def, env, c, sn).Success? && i < |c| && InNoPlace(def, i)
    ensures GenSn(def, env, c, sn).value[i] == c[i]
  {
    hide GeneratedSn;
    assert Places(def)[SERIAL] == def.certSn;
    if !def.snSource.Stored? && def.certSn.count > 0 {
      ElementFraming(def.certSn, c, GeneratedSn(def, env, c, sn).value, def.certSn);
    }
  }
}
