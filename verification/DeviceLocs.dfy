/**
 * Planning which device regions to read: atcacert_merge_device_loc and atcacert_is_device_loc_match of
 * src/cryptoauthlib/lib/atcacert/atcacert_def.c. Offsets and counts are uint16_t, so a region that
 * grows to 65536 octets is stored truncated; the lemmas say exactly what that costs.
 */
module DeviceLocs {
  import opened Bytes
  import opened Division

  datatype Zone = ConfigZone | OtpZone | DataZone | NoZone

  type uint16 = n: int | 0 <= n < U16

  datatype DeviceLoc = DeviceLoc(zone: Zone, slot: byte, genkey: byte, offset: uint16, count: uint16) {
    predicate IsNull() { zone.NoZone? || count == 0 }

    /** One past the last octet. */
    function End(): nat { offset + count }
  }

  /** The slot and the read method matter in the data zone only. */
  predicate SameRegion(a: DeviceLoc, b: DeviceLoc) {
    a.zone == b.zone && (a.zone.DataZone? ==> a.slot == b.slot && a.genkey == b.genkey)
  }

  function RoundDown(n: nat, block: nat): nat
    requires block > 0
  {
    n / block * block
  }

  function RoundUp(n: nat, block: nat): nat
    requires block > 0
  {
    (if n % block != 0 then n / block + 1 else n / block) * block
  }

  lemma RoundingBounds(n: nat, block: nat)
    requires block > 0
    ensures RoundDown(n, block) <= n <= RoundUp(n, block) < n + block
    ensures RoundUp(n, block) % block == 0
    ensures n % block == 0 ==> RoundDown(n, block) == n
  {
    var q := n / block;
    assert n == q * block + n % block;
    Multiple(q, block);
    Multiple(q + 1, block);
  }

  // ----- one merge -----

  /** Same region, and the rounded new location overlaps or adjoins the entry. */
  predicate Touches(cur: DeviceLoc, loc: DeviceLoc, block: nat)
    requires block > 0
  {
    SameRegion(loc, cur) && !(RoundUp(loc.End(), block) < cur.offset || RoundDown(loc.offset, block) > cur.End())
  }

  /** The first entry the location can be merged into, or the length of the list. */
  function FirstTouch(locs: seq<DeviceLoc>, loc: DeviceLoc, block: nat): (i: nat)
    requires block > 0
    ensures i <= |locs|
    ensures i < |locs| ==> Touches(locs[i], loc, block)
    ensures forall j :: 0 <= j < i ==> !Touches(locs[j], loc, block)
  {
    if locs == [] || Touches(locs[0], loc, block) then 0 else 1 + FirstTouch(locs[1..], loc, block)
  }

  /** Where the merged entry starts and ends, before the count is cut to 16 bits. */
  function MergedStart(locs: seq<DeviceLoc>, loc: DeviceLoc, block: nat): nat
    requires block > 0
  {
    var i := FirstTouch(locs, loc, block);
    if i == |locs| then RoundDown(loc.offset, block)
    else if loc.offset < locs[i].offset then loc.offset else locs[i].offset
  }

  function MergedEnd(locs: seq<DeviceLoc>, loc: DeviceLoc, block: nat): nat
    requires block > 0
  {
    var i, end := FirstTouch(locs, loc, block), RoundUp(loc.End(), block);
    if i == |locs| || end > locs[i].End() then end else locs[i].End()
  }

  /** The entry the merge leaves in position FirstTouch. */
  function MergedEntry(locs: seq<DeviceLoc>, loc: DeviceLoc, block: nat): DeviceLoc
    requires block > 0
  {
    var i := FirstTouch(locs, loc, block);
    var start, end := MergedStart(locs, loc, block), MergedEnd(locs, loc, block);
    var base := if i == |locs| then loc else locs[i];
    base.(offset := start % U16, count := (end - start) % U16)
  }

  function Merge(locs: seq<DeviceLoc>, max: nat, loc: DeviceLoc, block: nat): Result<seq<DeviceLoc>> {
    if block <= 0 then Failure(BadParams)
    else if loc.IsNull() then Success(locs)
    else
      var i := FirstTouch(locs, loc, block);
      if i < |locs| then Success(locs[i := MergedEntry(locs, loc, block)])
      else if |locs| >= max then Failure(BufferTooSmall)
      else Success(locs + [MergedEntry(locs, loc, block)])
  }

  /** The merged size still fits the entry's 16-bit count. */
  predicate Fits(locs: seq<DeviceLoc>, loc: DeviceLoc, block: nat)
    requires block > 0
  {
    MergedEnd(locs, loc, block) - MergedStart(locs, loc, block) < U16
  }

  /** outer covers every octet of inner. */
  predicate Encompasses(outer: DeviceLoc, inner: DeviceLoc) {
    SameRegion(outer, inner) && outer.offset <= inner.offset && inner.End() <= outer.End()
  }

  lemma MergedBounds(locs: seq<DeviceLoc>, loc: DeviceLoc, block: nat)
    requires block > 0 && !loc.IsNull()
    ensures MergedStart(locs, loc, block) <= loc.offset && loc.End() <= MergedEnd(locs, loc, block)
    ensures MergedStart(locs, loc, block) < MergedEnd(locs, loc, block)
    ensures MergedStart(locs, loc, block) < U16
    ensures var i := FirstTouch(locs, loc, block);
            i < |locs| ==> MergedStart(locs, loc, block) <= locs[i].offset && locs[i].End() <= MergedEnd(locs, loc, block)
  {
    RoundingBounds(loc.offset, block);
    RoundingBounds(loc.End(), block);
  }

  /**
   * The entry that absorbs a location covers it, and covers what it covered before, exactly when the
   * merged size fits 16 bits. (For blocks over 65536 octets the cut may fall in the rounding slack.)
   */
  lemma MergeKeepsDataIffFits(locs: seq<DeviceLoc>, loc: DeviceLoc, block: nat)
    requires 0 < block <= U16 && !loc.IsNull()
    ensures var i, e := FirstTouch(locs, loc, block), MergedEntry(locs, loc, block);
            Encompasses(e, loc) && (i < |locs| ==> Encompasses(e, locs[i])) <==> Fits(locs, loc, block)
  {
    hide RoundUp, RoundDown;
    MergedBounds(locs, loc, block);
    RoundingBounds(loc.End(), block);
    hide MergedStart, MergedEnd, FirstTouch, SameRegion;
    MergedCount(locs, loc, block);
  }

  lemma MergedCount(locs: seq<DeviceLoc>, loc: DeviceLoc, block: nat)
    requires block > 0 && !loc.IsNull()
    ensures var size, e := MergedEnd(locs, loc, block) - MergedStart(locs, loc, block), MergedEntry(locs, loc, block);
            && e.offset == MergedStart(locs, loc, block)
            && e.count <= size && (size >= U16 ==> e.count + U16 <= size)
            && (size < U16 ==> e.count == size)
    ensures var i, e := FirstTouch(locs, loc, block), MergedEntry(locs, loc, block);
            SameRegion(e, loc) && (i < |locs| ==> SameRegion(e, locs[i]))
    ensures var i, end := FirstTouch(locs, loc, block), MergedEnd(locs, loc, block);
            end == RoundUp(loc.End(), block) || (i < |locs| && end == locs[i].End())
  {
    hide RoundUp, RoundDown;
    MergedBounds(locs, loc, block);
    hide MergedStart;
  }

  lemma MergeFits(locs: seq<DeviceLoc>, loc: DeviceLoc, block: nat)
    requires block > 0 && !loc.IsNull() && Fits(locs, loc, block)
    ensures var i, e := FirstTouch(locs, loc, block), MergedEntry(locs, loc, block);
            && e.offset == MergedStart(locs, loc, block) && e.End() == MergedEnd(locs, loc, block)
            && !e.IsNull() && Encompasses(e, loc) && (i < |locs| ==> Encompasses(e, locs[i]))
  {
    hide RoundUp, RoundDown;
    MergedBounds(locs, loc, block);
  }

  /** 65535 octets from the start of a zone round up to 65536 and are recorded as nothing at all. */
  lemma MergeCanLoseEverything()
    ensures var loc := DeviceLoc(DataZone, 8, 0, 0, 65535);
            !loc.IsNull() && Merge([], 16, loc, 32) == Success([DeviceLoc(DataZone, 8, 0, 0, 0)])
  {
    var loc := DeviceLoc(DataZone, 8, 0, 0, 65535);
    assert FirstTouch([], loc, 32) == 0;
    var none: seq<DeviceLoc> := [];
    assert none + [MergedEntry(none, loc, 32)] == [DeviceLoc(DataZone, 8, 0, 0, 0)];
  }

  // ----- coverage of the whole list -----

  /** The octet at address addr of key's region lies in l. */
  predicate Holds(l: DeviceLoc, key: DeviceLoc, addr: nat) {
    SameRegion(l, key) && l.offset <= addr < l.End()
  }

  ghost predicate Covered(locs: seq<DeviceLoc>, key: DeviceLoc, addr: nat) {
    exists i :: 0 <= i < |locs| && Holds(locs[i], key, addr)
  }

  /**
   * Per region, the octets covered after any merge lie inside the old coverage and the block-rounded
   * location; the list grows by at most one, never past max.
   */
  lemma MergeStaysInside(locs: seq<DeviceLoc>, max: nat, loc: DeviceLoc, block: nat, key: DeviceLoc, addr: nat)
    requires block > 0 && Merge(locs, max, loc, block).Success?
    ensures var r := Merge(locs, max, loc, block).value;
            && (Covered(r, key, addr) ==>
                 || Covered(locs, key, addr)
                 || (SameRegion(loc, key) && RoundDown(loc.offset, block) <= addr < RoundUp(loc.End(), block)))
            && |locs| <= |r| <= |locs| + 1 && (|r| <= max || |r| == |locs|)
  {
    hide RoundUp, RoundDown, FirstTouch;
    var r, i := Merge(locs, max, loc, block).value, FirstTouch(locs, loc, block);
    if Covered(r, key, addr) && !loc.IsNull() {
      MergedCount(locs, loc, block);
      RoundingBounds(loc.offset, block);
      var j :| 0 <= j < |r| && Holds(r[j], key, addr);
      if j != i {
        assert Holds(locs[j], key, addr);
      } else if i < |locs| && locs[i].offset <= addr < locs[i].End() {
        assert Holds(locs[i], key, addr);
      }
    }
  }

  /** When the merged size fits 16 bits, they contain the old coverage and the new location. */
  lemma MergeCovers(locs: seq<DeviceLoc>, max: nat, loc: DeviceLoc, block: nat, key: DeviceLoc, addr: nat)
    requires block > 0 && !loc.IsNull() && Fits(locs, loc, block) && Merge(locs, max, loc, block).Success?
    requires Covered(locs, key, addr) || Holds(loc, key, addr)
    ensures Covered(Merge(locs, max, loc, block).value, key, addr)
  {
    hide RoundUp, RoundDown, FirstTouch;
    var r, i, e := Merge(locs, max, loc, block).value, FirstTouch(locs, loc, block), MergedEntry(locs, loc, block);
    MergeFits(locs, loc, block);
    assert r[i] == e;
    if Covered(locs, key, addr) {
      var j :| 0 <= j < |locs| && Holds(locs[j], key, addr);
      assert Holds(r[j], key, addr);
    }
  }

  /** After any merge entries still start on a block boundary unless a lower unaligned raw offset is taken over. */
  lemma MergeStartsAligned(locs: seq<DeviceLoc>, max: nat, loc: DeviceLoc, block: nat)
    requires block > 0 && !loc.IsNull() && Merge(locs, max, loc, block).Success?
    requires forall i :: 0 <= i < |locs| ==> locs[i].offset % block == 0
    ensures var r, i := Merge(locs, max, loc, block).value, FirstTouch(locs, loc, block);
            (forall k :: 0 <= k < |r| ==> r[k].offset % block == 0)
            <==> i == |locs| || locs[i].offset <= loc.offset || loc.offset % block == 0
  {
    hide RoundUp, RoundDown, FirstTouch;
    var r, i, e := Merge(locs, max, loc, block).value, FirstTouch(locs, loc, block), MergedEntry(locs, loc, block);
    MergedCount(locs, loc, block);
    RoundDownAligned(loc.offset, block);
    assert r[i] == e;
  }

  /** When the merged size fits 16 bits, entries still end on a block boundary. */
  lemma MergeEndsAligned(locs: seq<DeviceLoc>, max: nat, loc: DeviceLoc, block: nat)
    requires block > 0 && !loc.IsNull() && Fits(locs, loc, block) && Merge(locs, max, loc, block).Success?
    requires forall i :: 0 <= i < |locs| ==> locs[i].End() % block == 0
    ensures var r := Merge(locs, max, loc, block).value; forall i :: 0 <= i < |r| ==> r[i].End() % block == 0
  {
    hide RoundUp, RoundDown, FirstTouch;
    MergeFits(locs, loc, block);
    RoundingBounds(loc.End(), block);
  }

  /** An entry of the location's region that shares an octet with the block-rounded location or adjoins it. */
  ghost predicate Meets(e: DeviceLoc, loc: DeviceLoc, block: nat)
    requires block > 0
  {
    && SameRegion(e, loc)
    && exists a: nat :: e.offset <= a <= e.End() && InBlocks(loc, block, a)
  }

  /** From the start of the location's first block up to the end of its last one. */
  ghost predicate InBlocks(loc: DeviceLoc, block: nat, a: nat)
    requires block > 0
  {
    loc.offset / block * block <= a && (a <= loc.End() || (a - 1) / block == (loc.End() - 1) / block)
  }

  /**
   * The location joins the first entry it meets and changes no other; it becomes a new entry if it meets
   * none, and only then can the list be full.
   */
  lemma MergeJoins(locs: seq<DeviceLoc>, max: nat, loc: DeviceLoc, block: nat)
    requires block > 0 && !loc.IsNull()
    ensures Merge(locs, max, loc, block).Success?
            <==> (exists i :: 0 <= i < |locs| && Meets(locs[i], loc, block)) || |locs| < max
    ensures Merge(locs, max, loc, block).Failure? ==> Merge(locs, max, loc, block).error == BufferTooSmall
    ensures forall i :: 0 <= i < |locs| && Meets(locs[i], loc, block) && (forall j :: 0 <= j < i ==> !Meets(locs[j], loc, block)) ==>
              var r := Merge(locs, max, loc, block).value; |r| == |locs| && r == locs[i := r[i]]
    ensures (forall i :: 0 <= i < |locs| ==> !Meets(locs[i], loc, block)) && |locs| < max ==>
              var r := Merge(locs, max, loc, block).value; |r| == |locs| + 1 && r[..|locs|] == locs
  {
    hide FirstTouch, MergedEntry, Meets, Touches;
    forall i | 0 <= i < |locs| ensures Meets(locs[i], loc, block) <==> Touches(locs[i], loc, block) {
      MeetsIsTouches(locs[i], loc, block);
    }
  }

  lemma MeetsIsTouches(e: DeviceLoc, loc: DeviceLoc, block: nat)
    requires block > 0 && !loc.IsNull()
    ensures Meets(e, loc, block) <==> Touches(e, loc, block)
  {
    hide RoundUp, InBlocks;
    var lo, hi := RoundDown(loc.offset, block), RoundUp(loc.End(), block);
    forall a: nat ensures InBlocks(loc, block, a) <==> lo <= a <= hi {
      BlocksEnd(loc, block, a);
    }
    RoundingBounds(loc.offset, block);
    RoundingBounds(loc.End(), block);
    if Touches(e, loc, block) {
      var a: nat := if e.offset < lo then lo else e.offset;
      assert e.offset <= a <= e.End() && InBlocks(loc, block, a);
    }
  }

  /** The octets up to the end of the block that holds the location's last one. */
  lemma BlocksEnd(loc: DeviceLoc, block: nat, a: nat)
    requires block > 0 && loc.End() > 0
    ensures InBlocks(loc, block, a) <==> RoundDown(loc.offset, block) <= a <= RoundUp(loc.End(), block)
  {
    var n, q := loc.End(), (loc.End() - 1) / block;
    RoundUpIs(n, block);
    if a > n {
      SameBlockIff(a - 1, n - 1, block);
    }
    RoundingBounds(n, block);
  }

  lemma RoundUpIs(n: nat, block: nat)
    requires block > 0 && n > 0
    ensures RoundUp(n, block) == ((n - 1) / block + 1) * block
  {
    var q, r := (n - 1) / block, (n - 1) % block;
    assert n - 1 == q * block + r;
    if r + 1 == block {
      Multiple(q, block);
      QuotientUnique(n, q + 1, 0, block);
    } else {
      QuotientUnique(n, q, r + 1, block);
    }
  }

  lemma SameBlockIff(a: nat, n: nat, block: nat)
    requires block > 0 && a >= n
    ensures a / block == n / block <==> a + 1 <= (n / block + 1) * block
  {
    var q, r, p := n / block, n % block, a / block;
    assert n == q * block + r && a == p * block + a % block;
    Multiple(q, block);
    if a + 1 <= (q + 1) * block {
      QuotientUnique(a, q, a - q * block, block);
    }
  }

  lemma RoundDownAligned(n: nat, block: nat)
    requires block > 0
    ensures RoundDown(n, block) % block == 0
  {
    Multiple(n / block, block);
  }

  // ----- planning: merging every location a definition names -----

  /** Merges the named locations one after the other, stopping at the first error. */
  function Plan(locs: seq<DeviceLoc>, max: nat, named: seq<DeviceLoc>, block: nat): Result<seq<DeviceLoc>>
    decreases |named|
  {
    if named == [] then Success(locs)
    else
      var next :- Merge(locs, max, named[0], block);
      Plan(next, max, named[1..], block)
  }

  /** atcacert_is_device_loc_match accepts: dest's data can be found in what reading src returned. */
  predicate IsMatch(dest: DeviceLoc, src: DeviceLoc) {
    !dest.IsNull() && !src.IsNull() && SameRegion(dest, src) && !(dest.offset < src.offset || dest.End() > src.End())
  }

  /** Rounded up, the location still ends within 16 bits. */
  predicate EndsLow(l: DeviceLoc, block: nat)
    requires block > 0
  {
    l.IsNull() || RoundUp(l.End(), block) < U16
  }

  ghost predicate AllEndLow(locs: seq<DeviceLoc>) {
    forall i :: 0 <= i < |locs| ==> locs[i].End() < U16
  }

  lemma LowEndsFit(locs: seq<DeviceLoc>, max: nat, loc: DeviceLoc, block: nat)
    requires block > 0 && !loc.IsNull() && AllEndLow(locs) && EndsLow(loc, block)
    requires Merge(locs, max, loc, block).Success?
    ensures Fits(locs, loc, block) && AllEndLow(Merge(locs, max, loc, block).value)
  {
    hide RoundUp, RoundDown, FirstTouch;
    RoundingBounds(loc.End(), block);
    MergeFits(locs, loc, block);
  }

  /** Every merge of the plan fits its entry's 16 bits. */
  ghost predicate StepsFit(locs: seq<DeviceLoc>, max: nat, named: seq<DeviceLoc>, block: nat)
    requires block > 0
    decreases |named|
  {
    named != [] && Merge(locs, max, named[0], block).Success? ==>
      && (named[0].IsNull() || Fits(locs, named[0], block))
      && StepsFit(Merge(locs, max, named[0], block).value, max, named[1..], block)
  }

  /** No merge of the plan loses an octet: the entry left covers the location and the entry it replaces. */
  ghost predicate StepsKeep(locs: seq<DeviceLoc>, max: nat, named: seq<DeviceLoc>, block: nat)
    requires block > 0
    decreases |named|
  {
    named != [] && Merge(locs, max, named[0], block).Success? ==>
      && (named[0].IsNull() ||
          var i, e := FirstTouch(locs, named[0], block), MergedEntry(locs, named[0], block);
          Encompasses(e, named[0]) && (i < |locs| ==> Encompasses(e, locs[i])))
      && StepsKeep(Merge(locs, max, named[0], block).value, max, named[1..], block)
  }

  /** A plan loses nothing on the way exactly when all its merges fit. */
  lemma {:induction false} PlanKeepsIff(locs: seq<DeviceLoc>, max: nat, named: seq<DeviceLoc>, block: nat)
    requires 0 < block <= U16
    ensures StepsKeep(locs, max, named, block) <==> StepsFit(locs, max, named, block)
    decreases |named|
  {
    hide MergedEntry, FirstTouch, Fits, Merge, Encompasses;
    if named != [] && Merge(locs, max, named[0], block).Success? {
      if !named[0].IsNull() {
        MergeKeepsDataIffFits(locs, named[0], block);
      }
      PlanKeepsIff(Merge(locs, max, named[0], block).value, max, named[1..], block);
    }
  }

  /** They do when every named location ends low: a condition on the definition alone. */
  lemma {:induction false} LowPlansFit(locs: seq<DeviceLoc>, max: nat, named: seq<DeviceLoc>, block: nat)
    requires block > 0 && AllEndLow(locs) && forall j :: 0 <= j < |named| ==> EndsLow(named[j], block)
    ensures StepsFit(locs, max, named, block)
    decreases |named|
  {
    hide MergedEntry, FirstTouch, Fits, EndsLow, AllEndLow, Merge;
    if named != [] && Merge(locs, max, named[0], block).Success? {
      if named[0].IsNull() {
        NullMerge(locs, max, named[0], block);
      } else {
        LowEndsFit(locs, max, named[0], block);
      }
      LowPlansFit(Merge(locs, max, named[0], block).value, max, named[1..], block);
    }
  }

  lemma NullMerge(locs: seq<DeviceLoc>, max: nat, loc: DeviceLoc, block: nat)
    requires block > 0 && loc.IsNull()
    ensures Merge(locs, max, loc, block) == Success(locs)
  {
  }

  /** What an entry covers it goes on covering under later merges. */
  lemma {:induction false} EntriesOnlyGrow(locs: seq<DeviceLoc>, max: nat, named: seq<DeviceLoc>, block: nat, i: nat)
    requires block > 0 && i < |locs| && StepsFit(locs, max, named, block)
    requires Plan(locs, max, named, block).Success?
    ensures i < |Plan(locs, max, named, block).value|
    ensures Encompasses(Plan(locs, max, named, block).value[i], locs[i])
    decreases |named|
  {
    hide Merge, Fits, Encompasses;
    if named != [] {
      var next := Merge(locs, max, named[0], block).value;
      MergeGrows(locs, max, named[0], block, i);
      EntriesOnlyGrow(next, max, named[1..], block, i);
      EncompassesTransitive(Plan(next, max, named[1..], block).value[i], next[i], locs[i]);
    } else {
      EncompassesTransitive(locs[i], locs[i], locs[i]);
    }
  }

  lemma EncompassesTransitive(a: DeviceLoc, b: DeviceLoc, c: DeviceLoc)
    ensures Encompasses(a, a)
    ensures Encompasses(a, b) && Encompasses(b, c) ==> Encompasses(a, c)
  {
  }

  lemma MergeGrows(locs: seq<DeviceLoc>, max: nat, loc: DeviceLoc, block: nat, i: nat)
    requires block > 0 && i < |locs| && (loc.IsNull() || Fits(locs, loc, block))
    requires Merge(locs, max, loc, block).Success?
    ensures var r := Merge(locs, max, loc, block).value; i < |r| && Encompasses(r[i], locs[i])
  {
    hide FirstTouch, RoundUp, Fits;
    if !loc.IsNull() {
      MergeFits(locs, loc, block);
    }
  }

  /**
   * Planned reads are complete: for every location that exists, one entry of the finished list
   * is accepted by the lookup the builder makes later.
   */
  lemma {:induction false} PlanIsComplete(locs: seq<DeviceLoc>, max: nat, named: seq<DeviceLoc>, block: nat, k: nat)
    requires block > 0 && k < |named| && !named[k].IsNull() && StepsFit(locs, max, named, block)
    requires Plan(locs, max, named, block).Success?
    ensures exists i :: 0 <= i < |Plan(locs, max, named, block).value|
                        && IsMatch(named[k], Plan(locs, max, named, block).value[i])
    decreases |named|
  {
    hide MergedEntry, FirstTouch, Fits, Touches;
    var next := Merge(locs, max, named[0], block).value;
    if k > 0 {
      PlanIsComplete(next, max, named[1..], block, k - 1);
    } else {
      MergeFits(locs, named[0], block);
      var i := FirstTouch(locs, named[0], block);
      assert Encompasses(next[i], named[0]);
      EntriesOnlyGrow(next, max, named[1..], block, i);
      var r := Plan(next, max, named[1..], block).value;
      EncompassesTransitive(r[i], next[i], named[0]);
      assert IsMatch(named[0], r[i]);
    }
  }

  /** atcacert_merge_device_loc over the first count entries of the list. */
  method MergeDeviceLoc(locs: array<DeviceLoc>, count: nat, max: nat, loc: DeviceLoc, block: nat)
    returns (st: Status, newCount: nat)
    requires count <= locs.Length && max <= locs.Length
    modifies locs
    ensures st == Merge(old(locs[..count]), max, loc, block).Code()
    ensures st.Ok? ==> newCount <= locs.Length && locs[..newCount] == Merge(old(locs[..count]), max, loc, block).value
    ensures !st.Ok? ==> newCount == count && locs[..] == old(locs[..])
  {
    hide RoundUp, RoundDown, FirstTouch, MergedEntry;
    newCount := count;
    if block <= 0 {
      return BadParams, count;
    }
    if loc.zone.NoZone? || loc.count == 0 {
      return Ok, count;
    }
    var newOffset := RoundDown(loc.offset, block);
    var newEnd := RoundUp(loc.offset + loc.count, block);
    ghost var was := locs[..count];
    var i := 0;
    FirstTouchStep(was, 0, loc, block);
    while i < count
      invariant 0 <= i <= count && locs[..] == old(locs[..])
      invariant FirstTouch(was, loc, block) >= i
    {
      FirstTouchStep(was, i, loc, block);
      MergedWith(was, loc, block);
      var cur := locs[i];
      var curEnd := cur.offset + cur.count;
      if loc.zone != cur.zone
         || (loc.zone.DataZone? && loc.slot != cur.slot)
         || (loc.zone.DataZone? && loc.genkey != cur.genkey)
         || newEnd < cur.offset || newOffset > curEnd {
        i := i + 1;
        continue;
      }
      var offset: int := if loc.offset < cur.offset then loc.offset else cur.offset;
      var end := if newEnd > curEnd then newEnd else curEnd;
      locs[i] := cur.(offset := offset, count := (end - offset) % U16);
      assert locs[..count] == was[i := MergedEntry(was, loc, block)];
      return Ok, count;
    }
    if count >= max {
      return BufferTooSmall, count;
    }
    MergedWith(was, loc, block);
    locs[count] := loc.(offset := newOffset % U16, count := (newEnd - newOffset) % U16);
    assert locs[..count + 1] == was + [MergedEntry(was, loc, block)];
    newCount := count + 1;
    st := Ok;
  }

  /** The merged entry, as the loop and the code behind it compute it. */
  lemma MergedWith(locs: seq<DeviceLoc>, loc: DeviceLoc, block: nat)
    requires block > 0
    ensures var i, start, end := FirstTouch(locs, loc, block), RoundDown(loc.offset, block), RoundUp(loc.End(), block);
            MergedEntry(locs, loc, block) ==
            if i < |locs| then
              var cur := locs[i];
              var offset := if loc.offset < cur.offset then loc.offset else cur.offset;
              cur.(offset := offset, count := ((if end > cur.End() then end else cur.End()) - offset) % U16)
            else loc.(offset := start % U16, count := (end - start) % U16)
  {
    hide RoundUp, RoundDown, FirstTouch;
  }

  lemma {:induction false} FirstTouchStep(locs: seq<DeviceLoc>, i: nat, loc: DeviceLoc, block: nat)
    requires block > 0 && i <= FirstTouch(locs, loc, block) && i <= |locs|
    ensures i < |locs| ==> (FirstTouch(locs, loc, block) == i <==> Touches(locs[i], loc, block))
  {
  }
}
