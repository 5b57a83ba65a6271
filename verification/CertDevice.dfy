/**
 * From the device to the certificate and back: atcacert_get_device_locs (atcacert_def.c),
 * atcacert_read_device_loc, atcacert_read_cert and atcacert_read_cert_size (atcacert_client.c). The
 * device answers every command; what it holds is a parameter.
 */
module CertDevice {
  import opened Bytes
  import opened EcdsaSig
  import opened DeviceLocs
  import opened CertDef
  import opened CertElements
  import opened CompCert
  import opened CertBuild
  import opened BuildLaws
  import opened CertReader

  type Key64 = k: seq<byte> | |k| == 64 witness seq(64, _ => 0)

  /** The public key of every private-key slot, and the contents of every zone (and data slot). */
  datatype Device = Device(publicKey: byte -> Key64, zone: (Zone, byte) -> seq<byte>)

  /** ATCA_BLOCK_SIZE, and the sizes of the two buffers atcacert_read_cert keeps. */
  const BLOCK: nat := 32
  const MAX_LOCS: nat := 16
  const READ_BUFFER: nat := 416

  // ----- planning -----

  /** Every location a definition names, in the order atcacert_get_device_locs merges them. */
  function Named(def: Def): seq<DeviceLoc> {
    [def.compCertDevLoc, def.certSnDevLoc, def.publicKeyDevLoc] + ElementLocs(def.elements)
    + (if def.snSource.NeedsDeviceSn() then [DeviceSnLoc] else [])
  }

  function ElementLocs(elements: seq<Element>): (locs: seq<DeviceLoc>)
    ensures |locs| == |elements| && forall i :: 0 <= i < |elements| ==> locs[i] == elements[i].deviceLoc
  {
    if elements == [] then [] else [elements[0].deviceLoc] + ElementLocs(elements[1..])
  }

  /** One location more; stops at the first error. */
  lemma PlanStep(locs: seq<DeviceLoc>, max: nat, named: seq<DeviceLoc>, k: nat, block: nat)
    requires k <= |named|
    ensures k < |named| ==>
              Plan(locs, max, named[k..], block) ==
              if Merge(locs, max, named[k], block).Failure? then Merge(locs, max, named[k], block)
              else Plan(Merge(locs, max, named[k], block).value, max, named[k + 1..], block)
    ensures k == |named| ==> Plan(locs, max, named[k..], block) == Success(locs)
  {
    hide Merge;
    if k < |named| {
      assert named[k..][1..] == named[k + 1..];
    }
  }

  /** atcacert_get_device_locs. */
  method GetDeviceLocs(def: Def, locs: array<DeviceLoc>, count: nat, max: nat, block: nat) returns (st: Status, newCount: nat)
    requires count <= locs.Length && max <= locs.Length
    modifies locs
    ensures var r := Plan(old(locs[..count]), max, Named(def), block);
            && st == r.Code()
            && (st.Ok? ==> newCount <= locs.Length && locs[..newCount] == r.value)
  {
    hide Merge, Plan, Named;
    ghost var named := Named(def);
    ghost var all := Plan(locs[..count], max, named, block);
    NamedParts(def);
    assert named[0..] == named;
    PlanStep(locs[..count], max, named, 0, block);
    st, newCount := MergeDeviceLoc(locs, count, max, def.compCertDevLoc, block);
    if st != Ok {
      return;
    }
    PlanStep(locs[..newCount], max, named, 1, block);
    st, newCount := MergeDeviceLoc(locs, newCount, max, def.certSnDevLoc, block);
    if st != Ok {
      return;
    }
    PlanStep(locs[..newCount], max, named, 2, block);
    st, newCount := MergeDeviceLoc(locs, newCount, max, def.publicKeyDevLoc, block);
    if st != Ok {
      return;
    }
    var i := 0;
    while i < |def.elements|
      invariant 0 <= i <= |def.elements| && newCount <= locs.Length
      invariant Plan(locs[..newCount], max, named[3 + i..], block) == all
    {
      PlanStep(locs[..newCount], max, named, 3 + i, block);
      st, newCount := MergeDeviceLoc(locs, newCount, max, def.elements[i].deviceLoc, block);
      if st != Ok {
        return;
      }
      i := i + 1;
    }
    PlanStep(locs[..newCount], max, named, 3 + i, block);
    if def.snSource.NeedsDeviceSn() {
      st, newCount := MergeDeviceLoc(locs, newCount, max, DeviceSnLoc, block);
      if st != Ok {
        return;
      }
      PlanStep(locs[..newCount], max, named, 4 + i, block);
    }
    st := Ok;
  }

  lemma NamedParts(def: Def)
    ensures var named, n := Named(def), |def.elements|;
            && |named| == 3 + n + (if def.snSource.NeedsDeviceSn() then 1 else 0)
            && named[0] == def.compCertDevLoc && named[1] == def.certSnDevLoc && named[2] == def.publicKeyDevLoc
            && (forall i :: 0 <= i < n ==> named[3 + i] == def.elements[i].deviceLoc)
            && (def.snSource.NeedsDeviceSn() ==> named[3 + n] == DeviceSnLoc)
  {
  }

  // ----- reading -----

  /** The octets a read of the location returns: cut at the end of the zone, if it reaches past it. */
  function ReadLoc(device: Device, loc: DeviceLoc): (r: Result<seq<byte>>)
    ensures r.Success? ==> |r.value| <= loc.count
  {
    if loc.zone.DataZone? && loc.genkey != 0 then
      if loc.End() > 64 then Failure(BadParams) else Success(device.publicKey(loc.slot)[loc.offset..loc.End()])
    else
      var zone := device.zone(loc.zone, loc.slot);
      if loc.End() <= |zone| then Success(zone[loc.offset..loc.End()])
      else if loc.offset > |zone| then Failure(BadParams)
      else Success(zone[loc.offset..])
  }

  /**
   * A public key is read only where it has the octets; anything else is read from any place up to the end
   * of the zone, and gives the octets there, as many as were asked for or as there are.
   */
  lemma ReadLocForm(device: Device, loc: DeviceLoc)
    ensures ReadLoc(device, loc).Success?
            <==> if loc.zone.DataZone? && loc.genkey != 0 then loc.End() <= 64 else loc.offset <= |device.zone(loc.zone, loc.slot)|
    ensures ReadLoc(device, loc).Success? ==>
              var held, octets := if loc.zone.DataZone? && loc.genkey != 0 then device.publicKey(loc.slot) else device.zone(loc.zone, loc.slot),
                                  ReadLoc(device, loc).value;
              && |octets| == (if loc.End() <= |held| then loc.count else |held| - loc.offset)
              && forall i :: 0 <= i < |octets| ==> octets[i] == held[loc.offset + i]
    ensures ReadLoc(device, loc).Failure? ==> ReadLoc(device, loc).error == BadParams
  {
  }

  /** What the device holds at a location inside its key or zone. */
  function Contents(device: Device, loc: DeviceLoc): Option<seq<byte>> {
    if loc.zone.DataZone? && loc.genkey != 0 then
      if loc.End() > 64 then None else Some(device.publicKey(loc.slot)[loc.offset..loc.End()])
    else if loc.End() <= |device.zone(loc.zone, loc.slot)| then
      Some(device.zone(loc.zone, loc.slot)[loc.offset..loc.End()])
    else None
  }

  /** Only the data zone has slots. */
  ghost predicate Plausible(device: Device) {
    forall z: Zone, s, t :: !z.DataZone? ==> device.zone(z, s) == device.zone(z, t)
  }

  /** The octets a read finds where it holds as much as was asked for. */
  lemma ReadFinds(device: Device, dest: DeviceLoc, src: DeviceLoc)
    requires Plausible(device) && IsMatch(dest, src) && Contents(device, dest).Some? && ReadLoc(device, src).Success?
    ensures var octets, from := ReadLoc(device, src).value, dest.offset - src.offset;
            && from + dest.count <= |octets|
            && octets[from..from + dest.count] == Contents(device, dest).value
  {
    var from := dest.offset - src.offset;
    if src.zone.DataZone? && src.genkey != 0 {
      SliceOfSlice(device.publicKey(src.slot), src.offset, src.count, from, from + dest.count);
    } else {
      var zone := device.zone(src.zone, src.slot);
      assert device.zone(dest.zone, dest.slot) == zone;
      var n := if src.End() <= |zone| then src.count else |zone| - src.offset;
      assert ReadLoc(device, src).value == zone[src.offset..src.offset + n];
      SliceOfSlice(zone, src.offset, n, from, from + dest.count);
    }
  }

  /** The front of the read buffer after a read. */
  lemma BufferFront(buf: seq<byte>, octets: seq<byte>, n: nat, lo: nat, hi: nat)
    requires |octets| <= n <= |buf| && lo <= hi <= |octets|
    ensures Splice(buf, 0, octets)[..n][lo..hi] == octets[lo..hi]
  {
    var a, b := Splice(buf, 0, octets)[..n][lo..hi], octets[lo..hi];
    assert |a| == |b|;
    assert forall i :: 0 <= i < |a| ==> a[i] == b[i];
  }

  /** A read that covers a location inside its zone carries exactly the octets the device holds there. */
  lemma ReadIsTrue(device: Device, dest: DeviceLoc, src: DeviceLoc, buf: seq<byte>)
    requires Plausible(device) && IsMatch(dest, src) && Contents(device, dest).Some?
    requires ReadLoc(device, src).Success? && src.count <= |buf|
    ensures var data := Splice(buf, 0, ReadLoc(device, src).value)[..src.count];
            Extract(dest, Read(src, data)) == Contents(device, dest)
  {
    hide Plausible, ReadLoc, Contents, Splice;
    var from := dest.offset - src.offset;
    ReadFinds(device, dest, src);
    BufferFront(buf, ReadLoc(device, src).value, src.count, from, from + dest.count);
  }

  /** atcacert_read_device_loc: a short read leaves the end of the buffer as it was. */
  method ReadDeviceLoc(device: Device, loc: DeviceLoc, data: array<byte>) returns (st: Status)
    requires loc.count <= data.Length
    modifies data
    ensures var r := ReadLoc(device, loc);
            && st == r.Code()
            && data[..] == if r.Success? then Splice(old(data[..]), 0, r.value) else old(data[..])
  {
    if loc.zone.DataZone? && loc.genkey != 0 {
      if loc.offset + loc.count > 64 {
        return BadParams;
      }
      CopyInto(data, 0, device.publicKey(loc.slot)[loc.offset..loc.offset + loc.count]);
      return Ok;
    }
    var count: nat := loc.count;
    var zone := device.zone(loc.zone, loc.slot);
    if loc.offset + loc.count > |zone| {
      if loc.offset > |zone| {
        return BadParams;
      }
      count := |zone| - loc.offset;
    }
    CopyInto(data, 0, zone[loc.offset..loc.offset + count]);
    st := Ok;
  }

  // ----- the size without the certificate -----

  /** What atcacert_read_cert_size answers: the signature's place and its encoded size. */
  function PredictedSize(def: Def, device: Device): Result<nat> {
    var loc := def.compCertDevLoc;
    var zone := device.zone(loc.zone, loc.slot);
    if loc.offset + 64 > |zone| then Failure(GeneralError)
    else Success(def.signature.offset + |SigValue(zone[loc.offset..loc.offset + 64])|)
  }

  /** atcacert_read_cert_size: the raw signature sits at octet 8 of the buffer it is encoded into. */
  method ReadCertSize(def: Def, device: Device) returns (st: Status, size: nat)
    ensures var r := PredictedSize(def, device); st == r.Code() && (st.Ok? ==> size == r.value <= MaxCertSize(def))
  {
    hide SigValue, Splice;
    size := 0;
    var buffer := new byte[75](_ => 0);
    var loc := def.compCertDevLoc;
    var zone := device.zone(loc.zone, loc.slot);
    if loc.offset + 64 > |zone| {
      return GeneralError, size;
    }
    var raw: RawSig := zone[loc.offset..loc.offset + 64];
    ghost var was: seq<byte> := buffer[..];
    CopyInto(buffer, 8, raw);
    SpliceInside(was, 8, raw);
    SigSize(raw);
    var buflen;
    st, buflen := EncSig(buffer, 8, buffer, 0, 75);
    size := def.signature.offset + buflen;
  }

  // ----- the read loop -----

  ghost predicate FitBuffer(locs: seq<DeviceLoc>) {
    forall i :: 0 <= i < |locs| ==> locs[i].count <= READ_BUFFER
  }

  /** The reads of a list of locations; a short read leaves older octets at the end of the buffer. */
  ghost function Inputs(device: Device, locs: seq<DeviceLoc>, buf: seq<byte>): (r: Result<seq<Read>>)
    requires FitBuffer(locs) && |buf| == READ_BUFFER
    ensures r.Success? ==> |r.value| == |locs| && AllComplete(r.value)
    ensures r.Success? ==> forall i :: 0 <= i < |locs| ==> r.value[i].loc == locs[i]
  {
    if locs == [] then Success([])
    else
      var octets :- ReadLoc(device, locs[0]);
      var now := Splice(buf, 0, octets);
      var rest :- Inputs(device, locs[1..], now);
      Success([Read(locs[0], now[..locs[0].count])] + rest)
  }

  /** Reading and processing one location after the other, stopping at the first error of either. */
  ghost function ReadLoop(def: Def, env: Env, device: Device, cap: nat, cert: seq<byte>, sn: Option<seq<byte>>,
                          locs: seq<DeviceLoc>, buf: seq<byte>): (r: Result<(seq<byte>, Option<seq<byte>>)>)
    requires |cert| <= cap < MAX_CERT && FitBuffer(locs) && |buf| == READ_BUFFER
    ensures r.Success? ==> |r.value.0| <= cap
    decreases |locs|
  {
    if locs == [] then Success((cert, sn))
    else
      var octets :- ReadLoc(device, locs[0]);
      var now := Splice(buf, 0, octets);
      var read := Read(locs[0], now[..locs[0].count]);
      var next :- Apply(def, cert, cap, ReadEdits(def, env, read));
      ReadLoop(def, env, device, cap, next, SeenSn(sn, read), locs[1..], now)
  }

  /** Interleaving reads and changes succeeds exactly when reading everything first and then changing does. */
  lemma {:induction false} LoopIsScript(def: Def, env: Env, device: Device, cap: nat, cert: seq<byte>, sn: Option<seq<byte>>,
                                        locs: seq<DeviceLoc>, buf: seq<byte>)
    requires |cert| <= cap < MAX_CERT && FitBuffer(locs) && |buf| == READ_BUFFER
    ensures var loop, inputs := ReadLoop(def, env, device, cap, cert, sn, locs, buf), Inputs(device, locs, buf);
            && (loop.Success? <==> inputs.Success? && Apply(def, cert, cap, AllEdits(def, env, inputs.value)).Success?)
            && (loop.Success? ==>
                  loop.value == (Apply(def, cert, cap, AllEdits(def, env, inputs.value)).value, FinalSn(sn, inputs.value)))
    decreases |locs|
  {
    hide ReadLoc, ReadEdits, Apply, Splice, SeenSn;
    NoEditsApply(def, cert, cap);
    if locs != [] && ReadLoc(device, locs[0]).Success? {
      var now := Splice(buf, 0, ReadLoc(device, locs[0]).value);
      var read := Read(locs[0], now[..locs[0].count]);
      var rest := Inputs(device, locs[1..], now);
      var next := Apply(def, cert, cap, ReadEdits(def, env, read));
      if rest.Success? {
        var inputs := [read] + rest.value;
        assert inputs[1..] == rest.value;
        ApplyConcat(def, cert, cap, ReadEdits(def, env, read), AllEdits(def, env, rest.value));
      }
      if next.Success? {
        LoopIsScript(def, env, device, cap, next.value, SeenSn(sn, read), locs[1..], now);
      }
    }
  }

  lemma NoEditsApply(def: Def, c: seq<byte>, cap: nat)
    requires |c| <= cap < MAX_CERT
    ensures Apply(def, c, cap, []) == Success(c)
  {
  }

  /** The planned reads fit the buffer atcacert_read_cert reads them into. */
  ghost predicate PlanFits(def: Def) {
    Plan([], MAX_LOCS, Named(def), BLOCK).Success? ==> FitBuffer(Plan([], MAX_LOCS, Named(def), BLOCK).value)
  }

  /** atcacert_read_cert; buf is what earlier reads left in its static buffer. */
  ghost function ReadCert(def: Def, env: Env, device: Device, caKey: Option<seq<byte>>, cap: nat, buf: seq<byte>): Result<seq<byte>>
    requires WellFormed(def) && PlanFits(def) && 6 <= cap < MAX_CERT && |buf| == READ_BUFFER
  {
    var plan :- Plan([], MAX_LOCS, Named(def), BLOCK);
    var started :- Apply(def, StartCert(def, cap), cap, CaEdits(def, env, caKey));
    var (edited, sn) :- ReadLoop(def, env, device, cap, started, None, plan, buf);
    GenSn(def, env, edited, sn)
  }

  /** Reading a certificate is building it from the planned reads. */
  lemma ReadCertIsBuild(def: Def, env: Env, device: Device, caKey: Option<seq<byte>>, cap: nat, buf: seq<byte>, c: seq<byte>)
    requires WellFormed(def) && PlanFits(def) && 6 <= cap < MAX_CERT && |buf| == READ_BUFFER
    ensures var plan := Plan([], MAX_LOCS, Named(def), BLOCK);
            ReadCert(def, env, device, caKey, cap, buf) == Success(c)
            <==> plan.Success? && Inputs(device, plan.value, buf).Success?
                 && BuildCert(def, env, cap, caKey, Inputs(device, plan.value, buf).value) == Success(c)
  {
    hide WellFormed, Plan, Named, Apply, StartCert, CaEdits, GenSn, FitBuffer, Inputs, AllEdits;
    var plan := Plan([], MAX_LOCS, Named(def), BLOCK);
    var started := Apply(def, StartCert(def, cap), cap, CaEdits(def, env, caKey));
    if plan.Success? && started.Success? {
      LoopIsScript(def, env, device, cap, started.value, None, plan.value, buf);
    }
  }

  /** Every location the definition names ends low enough for the planner's 16-bit counts. */
  ghost predicate NamedLow(def: Def) {
    forall i :: 0 <= i < |Named(def)| ==> EndsLow(Named(def)[i], BLOCK)
  }

  /** The planned reads mention the compressed certificate, and all agree with the device about it. */
  lemma PlanCarries(def: Def, device: Device, buf: seq<byte>, cc: Compressed)
    requires PlanFits(def) && Plausible(device) && |buf| == READ_BUFFER && NamedLow(def)
    requires !def.compCertDevLoc.IsNull() && Contents(device, def.compCertDevLoc) == Some(cc)
    requires Plan([], MAX_LOCS, Named(def), BLOCK).Success?
    requires Inputs(device, Plan([], MAX_LOCS, Named(def), BLOCK).value, buf).Success?
    ensures var inputs := Inputs(device, Plan([], MAX_LOCS, Named(def), BLOCK).value, buf).value;
            Carries(def, inputs, cc) && Mentions(def, inputs)
  {
    hide Plan, Named, EndsLow, StepsFit, Inputs, Plausible, SameRegion, Contents;
    NamedParts(def);
    var plan := Plan([], MAX_LOCS, Named(def), BLOCK).value;
    InputsAgree(device, def.compCertDevLoc, plan, buf);
    LowPlansFit([], MAX_LOCS, Named(def), BLOCK);
    PlanIsComplete([], MAX_LOCS, Named(def), BLOCK, 0);
    var i :| 0 <= i < |plan| && IsMatch(def.compCertDevLoc, plan[i]);
    assert Extract(def.compCertDevLoc, Inputs(device, plan, buf).value[i]).Some?;
  }

  lemma {:induction false} InputsAgree(device: Device, dest: DeviceLoc, locs: seq<DeviceLoc>, buf: seq<byte>)
    requires Plausible(device) && Contents(device, dest).Some? && FitBuffer(locs) && |buf| == READ_BUFFER
    requires Inputs(device, locs, buf).Success?
    ensures var inputs := Inputs(device, locs, buf).value;
            forall i :: 0 <= i < |inputs| && Extract(dest, inputs[i]).Some? ==> Extract(dest, inputs[i]) == Contents(device, dest)
    decreases |locs|
  {
    hide Plausible, Contents, SameRegion, Splice;
    if locs != [] {
      var now := Splice(buf, 0, ReadLoc(device, locs[0]).value);
      InputsAgree(device, dest, locs[1..], now);
      if IsMatch(dest, locs[0]) {
        ReadIsTrue(device, dest, locs[0], buf);
      }
    }
  }

  /**
   * What reading a certificate off a device guarantees once it succeeds: it is one DER TLV that ends
   * with the encoded signature, any buffer that size or larger gives the same octets, and compressing
   * it returns exactly what the device holds whenever those octets are recoverable.
   */
  lemma ReadCertLaws(def: Def, env: Env, device: Device, caKey: Option<seq<byte>>, cap1: nat, cap2: nat, buf: seq<byte>, cc: Compressed)
    requires WellFormed(def) && PlanFits(def) && CompPiecesApart(def) && NamedLow(def) && Plausible(device)
    requires 6 <= cap1 < MAX_CERT && 6 <= cap2 < MAX_CERT && |buf| == READ_BUFFER
    requires !def.compCertDevLoc.IsNull() && Contents(device, def.compCertDevLoc) == Some(cc)
    requires ReadCert(def, env, device, caKey, cap1, buf).Success?
    ensures var c := ReadCert(def, env, device, caKey, cap1, buf).value;
            && IsTlv(c) && |c| == def.signature.offset + |SigValue(cc[..64])| <= MaxCertSize(def)
            && (|c| <= cap2 ==> ReadCert(def, env, device, caKey, cap2, buf) == Success(c))
            && (GetCompCert(def, c) == Success(cc) <==> Recoverable(def, cc))
  {
    hide WellFormed, CompPiecesApart, NamedLow, Plausible, Plan, Named, Inputs, Contents, ReadCert, BuildCert;
    hide GetCompCert, Recoverable, SigValue, IsTlv, Carries, Mentions, FitBuffer;
    var c := ReadCert(def, env, device, caKey, cap1, buf).value;
    ReadIsCarryingBuild(def, env, device, caKey, cap1, buf, cc);
    var inputs := Inputs(device, Plan([], MAX_LOCS, Named(def), BLOCK).value, buf).value;
    BuiltSize(def, env, cap1, caKey, inputs, cc, c);
    RebuiltCompresses(def, env, cap1, caKey, inputs, cc);
    if |c| <= cap2 {
      BufferIndependence(def, env, cap1, cap2, caKey, inputs, cc);
      ReadCertIsBuild(def, env, device, caKey, cap2, buf, c);
    }
  }

  lemma ReadIsCarryingBuild(def: Def, env: Env, device: Device, caKey: Option<seq<byte>>, cap: nat, buf: seq<byte>, cc: Compressed)
    requires WellFormed(def) && PlanFits(def) && NamedLow(def) && Plausible(device)
    requires 6 <= cap < MAX_CERT && |buf| == READ_BUFFER
    requires !def.compCertDevLoc.IsNull() && Contents(device, def.compCertDevLoc) == Some(cc)
    requires ReadCert(def, env, device, caKey, cap, buf).Success?
    ensures var plan := Plan([], MAX_LOCS, Named(def), BLOCK);
            && plan.Success? && FitBuffer(plan.value) && Inputs(device, plan.value, buf).Success?
            && var inputs := Inputs(device, plan.value, buf).value;
            && BuildCert(def, env, cap, caKey, inputs) == ReadCert(def, env, device, caKey, cap, buf)
            && Carries(def, inputs, cc) && Mentions(def, inputs)
  {
    hide WellFormed, NamedLow, Plausible, Plan, Named, Inputs, Contents, ReadCert, BuildCert, Carries, Mentions, FitBuffer;
    ReadCertIsBuild(def, env, device, caKey, cap, buf, ReadCert(def, env, device, caKey, cap, buf).value);
    PlanCarries(def, device, buf, cc);
  }

  // ----- what the static read buffer held before -----

  /** What a location is found to hold after a read into a buffer. */
  ghost function Found(device: Device, dest: DeviceLoc, src: DeviceLoc, buf: seq<byte>): Option<seq<byte>>
    requires ReadLoc(device, src).Success? && src.count <= |buf|
  {
    Extract(dest, Read(src, Splice(buf, 0, ReadLoc(device, src).value)[..src.count]))
  }

  /** What is found does not depend on what the buffer held before if and only if the location is inside its zone. */
  lemma FoundForgetsIff(device: Device, dest: DeviceLoc, src: DeviceLoc)
    requires Plausible(device) && IsMatch(dest, src) && ReadLoc(device, src).Success? && src.count <= READ_BUFFER
    ensures (forall buf1: seq<byte>, buf2: seq<byte> :: |buf1| == |buf2| == READ_BUFFER ==>
               Found(device, dest, src, buf1) == Found(device, dest, src, buf2))
            <==> Contents(device, dest).Some?
  {
    hide Plausible, Contents, Splice, Extract, ReadLoc;
    if Contents(device, dest).Some? {
      forall buf: seq<byte> | |buf| == READ_BUFFER ensures Found(device, dest, src, buf) == Contents(device, dest) {
        ReadIsTrue(device, dest, src, buf);
      }
    } else {
      CutShort(device, dest, src);
      var zeros, ones := seq<byte>(READ_BUFFER, _ => 0), seq<byte>(READ_BUFFER, _ => 1);
      LastFound(device, dest, src, zeros);
      LastFound(device, dest, src, ones);
      var f, g := Found(device, dest, src, zeros), Found(device, dest, src, ones);
      assert f.value[dest.count - 1] == 0 && g.value[dest.count - 1] == 1;
      assert f.value != g.value;
      assert f != g;
    }
  }

  lemma CutShort(device: Device, dest: DeviceLoc, src: DeviceLoc)
    requires Plausible(device) && IsMatch(dest, src) && ReadLoc(device, src).Success? && Contents(device, dest).None?
    ensures |ReadLoc(device, src).value| <= dest.End() - 1 - src.offset < src.count
  {
    assert device.zone(dest.zone, dest.slot) == device.zone(src.zone, src.slot);
  }

  /** The last octet of a location that was cut off is the buffer's old one. */
  lemma LastFound(device: Device, dest: DeviceLoc, src: DeviceLoc, buf: seq<byte>)
    requires IsMatch(dest, src) && ReadLoc(device, src).Success? && src.count <= |buf|
    requires |ReadLoc(device, src).value| <= dest.End() - 1 - src.offset < src.count
    ensures var found := Found(device, dest, src, buf);
            found.Some? && found.value[dest.count - 1] == buf[dest.End() - 1 - src.offset]
  {
    hide ReadLoc, SameRegion, Splice;
    var octets := ReadLoc(device, src).value;
    var data := Splice(buf, 0, octets)[..src.count];
    SpliceOutside(buf, 0, octets);
    var at := dest.offset - src.offset;
    assert data[at..at + dest.count][dest.count - 1] == data[at + dest.count - 1];
  }

  /** Every location the definition names, if it exists, lies inside its key or zone. */
  ghost predicate NamedInside(def: Def, device: Device) {
    forall i :: 0 <= i < |Named(def)| ==> Named(def)[i].IsNull() || Contents(device, Named(def)[i]).Some?
  }

  /** The two reads look the same from each of these locations. */
  ghost predicate Alike(locs: seq<DeviceLoc>, r1: Read, r2: Read)
    requires Complete(r1) && Complete(r2)
  {
    forall i :: 0 <= i < |locs| ==> Extract(locs[i], r1) == Extract(locs[i], r2)
  }

  lemma ReadsAreAlike(def: Def, device: Device, src: DeviceLoc, buf1: seq<byte>, buf2: seq<byte>)
    requires NamedInside(def, device) && Plausible(device)
    requires ReadLoc(device, src).Success? && src.count <= |buf1| && src.count <= |buf2|
    ensures var octets := ReadLoc(device, src).value;
            Alike(Named(def), Read(src, Splice(buf1, 0, octets)[..src.count]), Read(src, Splice(buf2, 0, octets)[..src.count]))
  {
    hide Named, Plausible, ReadLoc, Contents, Splice, SameRegion;
    var named := Named(def);
    forall i | 0 <= i < |named| && IsMatch(named[i], src) ensures Contents(device, named[i]).Some? {
      assert !named[i].IsNull();
    }
    forall i | 0 <= i < |named| && IsMatch(named[i], src)
      ensures var octets := ReadLoc(device, src).value;
              && Extract(named[i], Read(src, Splice(buf1, 0, octets)[..src.count])) == Contents(device, named[i])
              && Extract(named[i], Read(src, Splice(buf2, 0, octets)[..src.count])) == Contents(device, named[i])
    {
      ReadIsTrue(device, named[i], src, buf1);
      ReadIsTrue(device, named[i], src, buf2);
    }
  }

  lemma AlikeEdits(def: Def, env: Env, r1: Read, r2: Read)
    requires Complete(r1) && Complete(r2) && Alike(Named(def), r1, r2)
    ensures ReadEdits(def, env, r1) == ReadEdits(def, env, r2)
    ensures def.snSource.NeedsDeviceSn() ==> Extract(DeviceSnLoc, r1) == Extract(DeviceSnLoc, r2)
  {
    hide Named, Extract, KeyEdits, CompEdits, ElementEdits;
    NamedParts(def);
    var named := Named(def);
    assert Extract(named[0], r1) == Extract(named[0], r2) && Extract(named[1], r1) == Extract(named[1], r2)
           && Extract(named[2], r1) == Extract(named[2], r2);
    forall i | 0 <= i < |def.elements| ensures Extract(def.elements[i].deviceLoc, r1) == Extract(def.elements[i].deviceLoc, r2) {
      assert named[3 + i] == def.elements[i].deviceLoc;
    }
    AlikeElements(env, def.elements, r1, r2);
    if def.snSource.NeedsDeviceSn() {
      assert named[3 + |def.elements|] == DeviceSnLoc;
    }
  }

  lemma {:induction false} AlikeElements(env: Env, elements: seq<Element>, r1: Read, r2: Read)
    requires Complete(r1) && Complete(r2)
    requires forall i :: 0 <= i < |elements| ==> Extract(elements[i].deviceLoc, r1) == Extract(elements[i].deviceLoc, r2)
    ensures ElementEdits(env, elements, r1) == ElementEdits(env, elements, r2)
  {
    hide Extract, Transformed;
    if elements != [] {
      AlikeElements(env, elements[1..], r1, r2);
    }
  }

  /** The same failure, or the same certificate and, if the definition needs it, the same device number. */
  ghost predicate SameLoop(def: Def, a: Result<(seq<byte>, Option<seq<byte>>)>, b: Result<(seq<byte>, Option<seq<byte>>)>) {
    && a.Code() == b.Code()
    && (a.Success? ==> b.Success? && a.value.0 == b.value.0 && (def.snSource.NeedsDeviceSn() ==> a.value.1 == b.value.1))
  }

  lemma {:induction false} LoopForgets(def: Def, env: Env, device: Device, cap: nat, cert: seq<byte>,
                                       sn1: Option<seq<byte>>, sn2: Option<seq<byte>>, locs: seq<DeviceLoc>, buf1: seq<byte>, buf2: seq<byte>)
    requires |cert| <= cap < MAX_CERT && FitBuffer(locs) && |buf1| == |buf2| == READ_BUFFER
    requires NamedInside(def, device) && Plausible(device) && (def.snSource.NeedsDeviceSn() ==> sn1 == sn2)
    ensures SameLoop(def, ReadLoop(def, env, device, cap, cert, sn1, locs, buf1), ReadLoop(def, env, device, cap, cert, sn2, locs, buf2))
    decreases |locs|
  {
    hide NamedInside, Plausible, ReadLoc, ReadEdits, Apply, Splice, Extract, Alike;
    if locs != [] && ReadLoc(device, locs[0]).Success? {
      var now1, now2 := Splice(buf1, 0, ReadLoc(device, locs[0]).value), Splice(buf2, 0, ReadLoc(device, locs[0]).value);
      var r1, r2 := Read(locs[0], now1[..locs[0].count]), Read(locs[0], now2[..locs[0].count]);
      ReadsAreAlike(def, device, locs[0], buf1, buf2);
      AlikeEdits(def, env, r1, r2);
      var next := Apply(def, cert, cap, ReadEdits(def, env, r1));
      if next.Success? {
        LoopForgets(def, env, device, cap, next.value, SeenSn(sn1, r1), SeenSn(sn2, r2), locs[1..], now1, now2);
      }
    }
  }

  /**
   * A read that is cut at the end of its zone leaves octets of earlier reads in the buffer. When all
   * named locations are inside their zones, none of those reaches the certificate.
   */
  lemma OldReadsAreForgotten(def: Def, env: Env, device: Device, caKey: Option<seq<byte>>, cap: nat, buf1: seq<byte>, buf2: seq<byte>)
    requires WellFormed(def) && PlanFits(def) && 6 <= cap < MAX_CERT && |buf1| == |buf2| == READ_BUFFER
    requires NamedInside(def, device) && Plausible(device)
    ensures ReadCert(def, env, device, caKey, cap, buf1) == ReadCert(def, env, device, caKey, cap, buf2)
  {
    hide WellFormed, NamedInside, Plausible, Plan, Named, Apply, StartCert, CaEdits, GenSn, FitBuffer, ReadLoop;
    var plan := Plan([], MAX_LOCS, Named(def), BLOCK);
    var started := Apply(def, StartCert(def, cap), cap, CaEdits(def, env, caKey));
    if plan.Success? && started.Success? {
      LoopForgets(def, env, device, cap, started.value, None, None, plan.value, buf1, buf2);
      var loop1, loop2 := ReadLoop(def, env, device, cap, started.value, None, plan.value, buf1), ReadLoop(def, env, device, cap, started.value, None, plan.value, buf2);
      if loop1.Success? {
        OtherNumbersAreMoot(def, env, loop1.value.0, loop1.value.1, loop2.value.1);
      }
    }
  }

  lemma OtherNumbersAreMoot(def: Def, env: Env, cert: seq<byte>, sn1: Option<seq<byte>>, sn2: Option<seq<byte>>)
    requires def.snSource.NeedsDeviceSn() ==> sn1 == sn2
    ensures GenSn(def, env, cert, sn1) == GenSn(def, env, cert, sn2)
  {
    hide SetElement;
  }

  /** atcacert_read_cert_size answers the size of the certificate atcacert_read_cert then reads. */
  lemma SizeIsPredicted(def: Def, env: Env, device: Device, caKey: Option<seq<byte>>, cap: nat, buf: seq<byte>, cc: Compressed)
    requires WellFormed(def) && PlanFits(def) && NamedLow(def) && Plausible(device)
    requires 6 <= cap < MAX_CERT && |buf| == READ_BUFFER
    requires !def.compCertDevLoc.IsNull() && Contents(device, def.compCertDevLoc) == Some(cc)
    requires ReadCert(def, env, device, caKey, cap, buf).Success?
    ensures var predicted := PredictedSize(def, device);
            predicted.Success? && |ReadCert(def, env, device, caKey, cap, buf).value| == predicted.value <= MaxCertSize(def)
  {
    hide WellFormed, NamedLow, Plausible, Plan, Named, Inputs, Contents, ReadCert, BuildCert, SigValue, IsTlv, MaxCertSize;
    hide GetSignature, Carries, Mentions, FitBuffer, PredictedSize;
    ReadIsCarryingBuild(def, env, device, caKey, cap, buf, cc);
    BuiltSize(def, env, cap, caKey, Inputs(device, Plan([], MAX_LOCS, Named(def), BLOCK).value, buf).value, cc,
              ReadCert(def, env, device, caKey, cap, buf).value);
    HeldSize(def, device, cc);
  }

  lemma HeldSize(def: Def, device: Device, cc: Compressed)
    requires Contents(device, def.compCertDevLoc) == Some(cc)
    ensures var predicted := PredictedSize(def, device);
            predicted.Success? && predicted.value == def.signature.offset + |SigValue(cc[..64])|
  {
    hide SigValue, Contents;
    var loc := def.compCertDevLoc;
    HeldInZone(device, loc, cc);
    SliceOfSlice(device.zone(loc.zone, loc.slot), loc.offset, 72, 0, 64);
    assert cc[0..64] == cc[..64];
  }

  /** Seventy-two octets never come from a public key. */
  lemma HeldInZone(device: Device, loc: DeviceLoc, cc: Compressed)
    requires Contents(device, loc) == Some(cc)
    ensures var zone := device.zone(loc.zone, loc.slot);
            loc.offset + 72 <= |zone| && zone[loc.offset..loc.offset + 72] == cc
  {
    var held := Contents(device, loc).value;
    assert held == cc && |held| == loc.count;
  }

  /**
   * atcacert_read_cert; data is its static read buffer. Without a certificate buffer it only predicts
   * the size.
   */
  method ReadCertificate(def: Def, env: Env, device: Device, caKey: Option<seq<byte>>, cert: array?<byte>, cap: nat, data: array<byte>)
    returns (st: Status, size: nat)
    requires cert != null ==> WellFormed(def) && PlanFits(def) && 6 <= cap < MAX_CERT && cap <= cert.Length && data != cert
    requires data.Length == READ_BUFFER
    modifies data, if cert == null then {} else {cert}
    ensures cert == null ==> var r := PredictedSize(def, device); st == r.Code() && (st.Ok? ==> size == r.value)
    ensures cert != null ==>
              var r := ReadCert(def, env, device, caKey, cap, old(data[..]));
              st == r.Code() && (st.Ok? ==> size <= cap && cert[..size] == r.value)
  {
    hide WellFormed, Plan, Named, Apply, StartCert, CaEdits, GenSn, FitBuffer, ReadLoop;
    size := cap;
    if cert == null {
      st, size := ReadCertSize(def, device);
      return;
    }
    var locs := new DeviceLoc[MAX_LOCS](_ => DeviceLoc(NoZone, 0, 0, 0, 0));
    var count;
    assert locs[..0] == [];
    st, count := GetDeviceLocs(def, locs, 0, MAX_LOCS, BLOCK);
    if st != Ok {
      return;
    }
    ghost var plan := locs[..count];
    assert FitBuffer(plan);
    var state := new BuildState(def, cert, cap);
    st := state.Start(env, caKey);
    if st != Ok {
      return;
    }
    assert locs[..count] == plan;
    st := ReadAll(state, env, device, locs, count, data);
    if st != Ok {
      return;
    }
    st := state.Finish(env);
    size := state.size;
  }

  /** The loop of atcacert_read_cert. */
  method ReadAll(state: BuildState, env: Env, device: Device, locs: array<DeviceLoc>, count: nat, data: array<byte>)
    returns (st: Status)
    requires state.Valid() && count <= locs.Length && FitBuffer(locs[..count])
    requires data.Length == READ_BUFFER && data != state.cert
    modifies state`size, state`deviceSn, state.cert, data
    ensures state.Valid()
    ensures var r := ReadLoop(state.def, env, device, state.max, old(state.Cert()), old(state.deviceSn), locs[..count], old(data[..]));
            st == r.Code() && (st.Ok? ==> state.Cert() == r.value.0 && state.deviceSn == r.value.1)
  {
    hide WellFormed, Apply, ReadEdits, ReadLoc, Splice, SeenSn;
    ghost var plan := locs[..count];
    ghost var all := ReadLoop(state.def, env, device, state.max, state.Cert(), state.deviceSn, plan, data[..]);
    assert plan[0..] == plan;
    var i := 0;
    while i < count
      invariant 0 <= i <= count && state.Valid() && locs[..count] == plan
      invariant ReadLoop(state.def, env, device, state.max, state.Cert(), state.deviceSn, plan[i..], data[..]) == all
    {
      assert plan[i..][1..] == plan[i + 1..] && plan[i..][0] == locs[i];
      st := ReadDeviceLoc(device, locs[i], data);
      if st != Ok {
        return;
      }
      assert data[..locs[i].count] == data[..][..locs[i].count];
      st := state.Process(env, locs[i], data);
      if st != Ok {
        return;
      }
      i := i + 1;
    }
    st := Ok;
  }
}
