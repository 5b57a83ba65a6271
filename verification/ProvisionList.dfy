/**
 * The list of provisioning items in slot 8 of the secure element (src/ecc608.cpp): a writer that packs
 * items behind two-byte headers, and a reader that follows the headers' offsets. The device answers
 * every command that stays inside the slot.
 */
module ProvisionList {
  import opened Bytes

  const SLOT_SIZE: nat := 416
  const HEADER: nat := 2

  /** One more than the largest size_t of the microcontroller. */
  const SIZE_T: nat := 0x1_0000

  type ItemType = t: int | 0 <= t < 0x80

  const EMPTY: ItemType := 0

  datatype Item = Item(kind: ItemType, data: seq<byte>)

  /** The ATCA_* codes of the two functions. */
  datatype EccStatus = EccSuccess | InvalidSize | SmallBuffer | InvalidId | AssertFailure | ReadError

  // ----- headers -----

  /** Nine bits of offset and seven of type, least significant octet first. */
  function HeaderOctets(kind: ItemType, next: nat): (h: seq<byte>)
    ensures |h| == HEADER
  {
    [next % 256, kind * 2 + next / 256 % 2]
  }

  function KindOf(b0: byte, b1: byte): ItemType { b1 / 2 }

  function NextOf(b0: byte, b1: byte): (next: nat)
    ensures next < 512
  {
    b0 + b1 % 2 * 256
  }

  lemma HeaderRoundTrip(kind: ItemType, next: nat)
    requires next < 512
    ensures var h := HeaderOctets(kind, next); KindOf(h[0], h[1]) == kind && NextOf(h[0], h[1]) == next
  {
  }

  // ----- what the writer leaves in the slot -----

  ghost function Total(items: seq<Item>): nat {
    if items == [] then 0 else HEADER + |items[0].data| + Total(items[1..])
  }

  ghost function Packed(items: seq<Item>, at: nat): (p: seq<byte>)
    ensures |p| == Total(items)
    decreases |items|
  {
    if items == [] then []
    else
      var next := at + HEADER + |items[0].data|;
      HeaderOctets(items[0].kind, next) + items[0].data + Packed(items[1..], next)
  }

  function PaddedSize(n: nat): (size: nat)
    ensures n <= size < n + 32
  {
    (n / 32 + if n % 32 != 0 then 1 else 0) * 32
  }

  /** How many octets of the last block the writer never sets. */
  ghost function Padding(items: seq<Item>): (n: nat)
    ensures n < 32
  {
    PaddedSize(Total(items)) - Total(items)
  }

  ghost predicate Fits(items: seq<Item>) {
    PaddedSize(Total(items)) <= SLOT_SIZE
  }

  /** The slot after the payload write; junk is what the payload buffer held beyond the items. */
  ghost function Written(items: seq<Item>, junk: seq<byte>): (slot: seq<byte>)
    requires Fits(items) && |junk| == Padding(items)
    ensures |slot| == SLOT_SIZE
  {
    Packed(items, 0) + junk + Zeros(SLOT_SIZE - PaddedSize(Total(items)))
  }

  // ----- what the reader does -----

  /** What a read returns, if it does. */
  datatype Outcome = Found(data: seq<byte>) | Fails(status: EccStatus) | Loops

  ghost function Below(n: nat): (s: set<nat>)
    ensures forall x: nat :: x in s <==> x < n
  {
    if n == 0 then {} else Below(n - 1) + {n - 1}
  }

  /** Every offset a header can name. */
  ghost function Offsets(): set<nat> { Below(512) }

  /** The distance to the next header less this one, in a size_t: huge if the offset points backwards. */
  function DataSize(at: nat, next: nat): (n: nat)
    ensures n < SIZE_T && (at + HEADER <= next < SIZE_T ==> n == next - at - HEADER)
  {
    (next - at - HEADER) % SIZE_T
  }

  /** Whether the data and a terminating zero fit a buffer, as the reader computes it. */
  predicate HasRoom(dataSize: nat, size: nat) {
    (dataSize + 1) % SIZE_T <= size
  }

  /** From one header on; the reader comes back to a header it has seen only to go round forever. */
  ghost function ReadFrom(slot: seq<byte>, kind: ItemType, size: nat, at: nat, seen: set<nat>): (r: Outcome)
    requires at + HEADER <= |slot| == SLOT_SIZE
    ensures r.Fails? ==> r.status != EccSuccess
    decreases Offsets() - seen
  {
    if at in seen then Loops
    else
      assert at in Offsets();
      var k, next := KindOf(slot[at], slot[at + 1]), NextOf(slot[at], slot[at + 1]);
      if k == kind then
        var dataSize := DataSize(at, next);
        if !HasRoom(dataSize, size) then Fails(SmallBuffer)
        else if at + HEADER + dataSize > SLOT_SIZE then Fails(ReadError)
        else Found(slot[at + HEADER..at + HEADER + dataSize])
      else if k == EMPTY || next + HEADER > SLOT_SIZE then Fails(InvalidId)
      else ReadFrom(slot, kind, size, next, seen + {at})
  }

  ghost function ReadItem(slot: seq<byte>, kind: ItemType, size: nat): (r: Outcome)
    requires |slot| == SLOT_SIZE
    ensures r.Fails? ==> r.status != EccSuccess
  {
    ReadFrom(slot, kind, size, 0, {})
  }

  // ----- reading back what was written -----

  /** Where a walk over the items ends: at the wanted type, at an empty item, or behind the last. */
  datatype Walk = Hit(data: seq<byte>) | Stopped | Through

  ghost function Lookup(items: seq<Item>, kind: ItemType): Walk {
    if items == [] then Through
    else if items[0].kind == kind then Hit(items[0].data)
    else if items[0].kind == EMPTY then Stopped
    else Lookup(items[1..], kind)
  }

  /** The places of the headers. */
  ghost function Starts(items: seq<Item>, at: nat): set<nat>
    decreases |items|
  {
    if items == [] then {} else {at} + Starts(items[1..], at + HEADER + |items[0].data|)
  }

  /** What the reader returns once it found an item. */
  ghost function Given(d: seq<byte>, size: nat): Outcome {
    if |d| + 1 <= size then Found(d) else Fails(SmallBuffer)
  }

  lemma {:induction false} ReadList(slot: seq<byte>, items: seq<Item>, at: nat, kind: ItemType, size: nat, seen: set<nat>)
    requires |slot| == SLOT_SIZE && at + Total(items) <= SLOT_SIZE && at + HEADER <= SLOT_SIZE
    requires slot[at..at + Total(items)] == Packed(items, at)
    requires forall x :: x in seen ==> x < at
    ensures var r, end := ReadFrom(slot, kind, size, at, seen), at + Total(items);
            match Lookup(items, kind)
            case Hit(d) => r == Given(d, size)
            case Stopped => r == Fails(InvalidId)
            case Through =>
              if end + HEADER > SLOT_SIZE then r == Fails(InvalidId)
              else r == ReadFrom(slot, kind, size, end, seen + Starts(items, at))
    decreases |items|
  {
    hide ReadFrom, Packed, HeaderOctets, KindOf, NextOf;
    if items == [] {
      assert seen + Starts(items, at) == seen;
    } else {
      var next := at + HEADER + |items[0].data|;
      FirstItem(slot, items, at);
      ReadFirst(slot, items[0], at, kind, size, seen);
      if items[0].kind != kind && items[0].kind != EMPTY && next + HEADER <= SLOT_SIZE {
        ReadList(slot, items[1..], next, kind, size, seen + {at});
        assert seen + {at} + Starts(items[1..], next) == seen + Starts(items, at);
      } else if next + HEADER > SLOT_SIZE {
        NothingFits(items[1..]);
      }
    }
  }

  lemma NothingFits(items: seq<Item>)
    ensures Total(items) < HEADER ==> items == []
  {
  }

  lemma FirstItem(slot: seq<byte>, items: seq<Item>, at: nat)
    requires items != [] && at + Total(items) <= |slot| && slot[at..at + Total(items)] == Packed(items, at)
    ensures var next := at + HEADER + |items[0].data|;
            && slot[at..at + HEADER] == HeaderOctets(items[0].kind, next)
            && slot[at + HEADER..next] == items[0].data
            && next + Total(items[1..]) == at + Total(items)
            && slot[next..next + Total(items[1..])] == Packed(items[1..], next)
  {
    hide HeaderOctets, Packed;
    PackedFirst(items, at);
    var n, first := Total(items), items[0];
    var next := at + HEADER + |first.data|;
    var p := Packed(items, at);
    var rest := Packed(items[1..], next);
    assert p == HeaderOctets(first.kind, next) + first.data + rest;
    ThreeParts(HeaderOctets(first.kind, next), first.data, rest);
    SliceOfSlice(slot, at, n, 0, HEADER);
    SliceOfSlice(slot, at, n, HEADER, HEADER + |first.data|);
    SliceOfSlice(slot, at, n, HEADER + |first.data|, n);
  }

  lemma PackedFirst(items: seq<Item>, at: nat)
    requires items != []
    ensures var next := at + HEADER + |items[0].data|;
            Packed(items, at) == HeaderOctets(items[0].kind, next) + items[0].data + Packed(items[1..], next)
  {
  }

  lemma ThreeParts(a: seq<byte>, b: seq<byte>, c: seq<byte>)
    ensures var s := a + b + c;
            s[0..|a|] == a && s[|a|..|a| + |b|] == b && s[|a| + |b|..|s|] == c
  {
  }

  lemma ReadFirst(slot: seq<byte>, first: Item, at: nat, kind: ItemType, size: nat, seen: set<nat>)
    requires at + HEADER + |first.data| <= |slot| == SLOT_SIZE && at !in seen
    requires var next := at + HEADER + |first.data|;
             slot[at..at + HEADER] == HeaderOctets(first.kind, next) && slot[at + HEADER..next] == first.data
    ensures var r, next := ReadFrom(slot, kind, size, at, seen), at + HEADER + |first.data|;
            r == if first.kind == kind then Given(first.data, size)
                 else if first.kind == EMPTY || next + HEADER > SLOT_SIZE then Fails(InvalidId)
                 else ReadFrom(slot, kind, size, next, seen + {at})
  {
    hide HeaderOctets, KindOf, NextOf;
    var next := at + HEADER + |first.data|;
    HeaderRoundTrip(first.kind, next);
    assert slot[at] == slot[at..at + HEADER][0] && slot[at + 1] == slot[at..at + HEADER][1];
  }

  /**
   * Reading back: whatever the padding holds, a type that an item has is answered with the data of the
   * first such item, unless an empty item comes before it.
   */
  lemma WrittenReadsBack(items: seq<Item>, junk: seq<byte>, kind: ItemType, size: nat)
    requires Fits(items) && |junk| == Padding(items)
    ensures match Lookup(items, kind)
            case Hit(d) => ReadItem(Written(items, junk), kind, size) == Given(d, size)
            case Stopped => ReadItem(Written(items, junk), kind, size) == Fails(InvalidId)
            case Through => true
  {
    hide ReadFrom, Packed;
    var slot := Written(items, junk);
    assert slot[0..0 + Total(items)] == Packed(items, 0);
    ReadList(slot, items, 0, kind, size, {});
  }

  /** Each type once, none of them empty. */
  ghost predicate DistinctKinds(items: seq<Item>) {
    && (forall i :: 0 <= i < |items| ==> items[i].kind != EMPTY)
    && (forall i, j :: 0 <= i < j < |items| ==> items[i].kind != items[j].kind)
  }

  lemma {:induction false} DistinctHit(items: seq<Item>, i: nat)
    requires DistinctKinds(items) && i < |items|
    ensures Lookup(items, items[i].kind) == Hit(items[i].data)
    decreases |items|
  {
    if i > 0 {
      DistinctHit(items[1..], i - 1);
    }
  }

  /** With distinct types every item reads back exactly, in any buffer with room for a terminating zero. */
  lemma EveryItemReadsBack(items: seq<Item>, junk: seq<byte>, i: nat, size: nat)
    requires Fits(items) && |junk| == Padding(items) && DistinctKinds(items) && i < |items|
    ensures ReadItem(Written(items, junk), items[i].kind, size) == Given(items[i].data, size)
  {
    hide ReadItem, Written, Lookup;
    DistinctHit(items, i);
    WrittenReadsBack(items, junk, items[i].kind, size);
  }

  /** The octets behind the items. */
  lemma BehindItems(items: seq<Item>, junk: seq<byte>)
    requires Fits(items) && |junk| == Padding(items)
    ensures var slot, end := Written(items, junk), Total(items);
            && slot[0..0 + end] == Packed(items, 0)
            && (forall i :: 0 <= i < |junk| ==> slot[end + i] == junk[i])
            && (forall i :: end + |junk| <= i < SLOT_SIZE ==> slot[i] == 0)
  {
    hide Packed;
  }

  /**
   * A type that no item has is refused whenever the padding is shorter than a header or begins with an
   * empty one; otherwise the reader goes on from what it finds in the padding.
   */
  lemma AbsentReads(items: seq<Item>, junk: seq<byte>, kind: ItemType, size: nat)
    requires Fits(items) && |junk| == Padding(items) && kind != EMPTY && Lookup(items, kind) == Through
    ensures var r := ReadItem(Written(items, junk), kind, size);
            if |junk| < HEADER || KindOf(junk[0], junk[1]) == EMPTY then r == Fails(InvalidId)
            else Total(items) + HEADER <= SLOT_SIZE
                 && r == ReadFrom(Written(items, junk), kind, size, Total(items), Starts(items, 0))
  {
    hide ReadFrom, Packed, Written, Padding, Lookup, KindOf;
    var slot, end := Written(items, junk), Total(items);
    BehindItems(items, junk);
    ReadList(slot, items, 0, kind, size, {});
    assert {} + Starts(items, 0) == Starts(items, 0);
    if end + HEADER <= SLOT_SIZE && (|junk| < HEADER || KindOf(junk[0], junk[1]) == EMPTY) {
      StartsBelow(items, 0);
      EmptyKind(slot[end], slot[end + 1]);
      if |junk| >= HEADER {
        assert slot[end] == junk[0] && slot[end + 1] == junk[1];
      }
      EmptyHeader(slot, kind, size, end, Starts(items, 0));
    } else if |junk| >= HEADER {
      RoomForPadding(items);
    }
  }

  lemma EmptyKind(b0: byte, b1: byte)
    ensures b1 == 0 ==> KindOf(b0, b1) == EMPTY
  {
  }

  lemma RoomForPadding(items: seq<Item>)
    requires Fits(items)
    ensures Total(items) + Padding(items) <= SLOT_SIZE
  {
  }

  /** With the rest of the slot zero, every absent type is refused. */
  lemma ZeroPaddingRefuses(items: seq<Item>, kind: ItemType, size: nat)
    requires Fits(items) && kind != EMPTY && Lookup(items, kind) == Through
    ensures ReadItem(Written(items, Zeros(Padding(items))), kind, size) == Fails(InvalidId)
  {
    hide ReadItem, Written, Lookup, Padding, Fits;
    var junk := Zeros(Padding(items));
    AbsentReads(items, junk, kind, size);
    if |junk| >= HEADER {
      EmptyKind(junk[0], junk[1]);
    }
  }

  /**
   * A type that no item has is refused whatever the padding holds if and only if the padding is shorter
   * than a header: the writer does not clear it, and a header may be found there.
   */
  lemma AbsentIff(items: seq<Item>, kind: ItemType, size: nat)
    requires Fits(items) && kind != EMPTY && size >= 1 && Lookup(items, kind) == Through
    ensures Padding(items) < HEADER
            <==> forall junk :: |junk| == Padding(items) ==> ReadItem(Written(items, junk), kind, size) == Fails(InvalidId)
  {
    hide ReadItem, Written, Lookup, Padding, Fits;
    if Padding(items) < HEADER {
      forall junk | |junk| == Padding(items) ensures ReadItem(Written(items, junk), kind, size) == Fails(InvalidId) {
        AbsentReads(items, junk, kind, size);
      }
    } else {
      var fake := HeaderOctets(kind, Total(items) + HEADER) + Zeros(Padding(items) - HEADER);
      FakeItem(items, fake, kind, size);
    }
  }

  lemma EmptyHeader(slot: seq<byte>, kind: ItemType, size: nat, at: nat, seen: set<nat>)
    requires at + HEADER <= |slot| == SLOT_SIZE && KindOf(slot[at], slot[at + 1]) == EMPTY && kind != EMPTY && at !in seen
    ensures ReadFrom(slot, kind, size, at, seen) == Fails(InvalidId)
  {
  }

  lemma {:induction false} StartsBelow(items: seq<Item>, at: nat)
    ensures forall x :: x in Starts(items, at) ==> x < at + Total(items)
    decreases |items|
  {
    if items != [] {
      StartsBelow(items[1..], at + HEADER + |items[0].data|);
    }
  }

  lemma FakeItem(items: seq<Item>, fake: seq<byte>, kind: ItemType, size: nat)
    requires Fits(items) && |fake| == Padding(items) >= HEADER && kind != EMPTY && size >= 1 && Lookup(items, kind) == Through
    requires fake[..HEADER] == HeaderOctets(kind, Total(items) + HEADER)
    ensures ReadItem(Written(items, fake), kind, size) == Found([])
  {
    hide ReadFrom, Packed, Written, Lookup, HeaderOctets;
    var slot, end := Written(items, fake), Total(items);
    BehindItems(items, fake);
    ReadList(slot, items, 0, kind, size, {});
    StartsBelow(items, 0);
    assert slot[end..end + HEADER] == fake[..HEADER];
    ReadFirst(slot, Item(kind, []), end, kind, size, {} + Starts(items, 0));
  }

  /** With padding for a header, there is junk on which the search for an absent type never ends. */
  lemma JunkCanLoop(items: seq<Item>, kind: ItemType, size: nat) returns (junk: seq<byte>)
    requires Fits(items) && Padding(items) >= HEADER && kind != EMPTY && Lookup(items, kind) == Through
    ensures |junk| == Padding(items) && ReadItem(Written(items, junk), kind, size) == Loops
  {
    hide ReadFrom, Packed, Written, Lookup, HeaderOctets;
    var other: ItemType := if kind == 1 then 2 else 1;
    junk := HeaderOctets(other, 0) + Zeros(Padding(items) - HEADER);
    var slot, end := Written(items, junk), Total(items);
    BehindItems(items, junk);
    ReadList(slot, items, 0, kind, size, {});
    StartsBelow(items, 0);
    HeaderRoundTrip(other, 0);
    assert slot[end] == junk[0] && slot[end + 1] == junk[1];
    BackToStart(slot, kind, size, end, {} + Starts(items, 0));
  }

  lemma BackToStart(slot: seq<byte>, kind: ItemType, size: nat, at: nat, seen: set<nat>)
    requires 0 < at && at + HEADER <= |slot| == SLOT_SIZE && 0 in seen && at !in seen
    requires KindOf(slot[at], slot[at + 1]) != EMPTY && KindOf(slot[at], slot[at + 1]) != kind && NextOf(slot[at], slot[at + 1]) == 0
    ensures ReadFrom(slot, kind, size, at, seen) == Loops
  {
  }

  // ----- writing and checking -----

  /** The check of one item after the write. */
  ghost function CheckItem(slot: seq<byte>, item: Item): EccStatus
    requires |slot| == SLOT_SIZE
  {
    match ReadItem(slot, item.kind, |item.data| + 1)
    case Found(d) => if d == item.data then EccSuccess else AssertFailure
    case Fails(status) => status
    case Loops => ReadError
  }

  ghost function CheckAll(slot: seq<byte>, items: seq<Item>): EccStatus
    requires |slot| == SLOT_SIZE
  {
    if items == [] then EccSuccess
    else if CheckItem(slot, items[0]) != EccSuccess then CheckItem(slot, items[0])
    else CheckAll(slot, items[1..])
  }

  /** The slot that writeProvisionData leaves, and its status. */
  ghost function WriteResult(items: seq<Item>, junk: seq<byte>): (seq<byte>, EccStatus)
    requires |junk| == Padding(items)
  {
    if !Fits(items) then (Zeros(SLOT_SIZE), InvalidSize)
    else (Written(items, junk), CheckAll(Written(items, junk), items))
  }

  /** An item in the list is never missed altogether: the walk hits its type or stops before. */
  lemma {:induction false} NeverThrough(items: seq<Item>, i: nat)
    requires i < |items|
    ensures Lookup(items, items[i].kind) != Through
    decreases |items|
  {
    if i > 0 {
      NeverThrough(items[1..], i - 1);
    }
  }

  /** The check passes an item exactly when the item is what a walk over the list gives for its type. */
  lemma CheckItemIff(items: seq<Item>, junk: seq<byte>, i: nat)
    requires Fits(items) && |junk| == Padding(items) && i < |items|
    ensures ReadItem(Written(items, junk), items[i].kind, |items[i].data| + 1) != Loops
    ensures CheckItem(Written(items, junk), items[i]) == EccSuccess <==> Lookup(items, items[i].kind) == Hit(items[i].data)
  {
    hide ReadItem, Written, Lookup;
    NeverThrough(items, i);
    WrittenReadsBack(items, junk, items[i].kind, |items[i].data| + 1);
  }

  lemma {:induction false} CheckAllIff(slot: seq<byte>, items: seq<Item>)
    requires |slot| == SLOT_SIZE
    ensures CheckAll(slot, items) == EccSuccess <==> forall i :: 0 <= i < |items| ==> CheckItem(slot, items[i]) == EccSuccess
  {
    hide CheckItem;
    if items != [] {
      CheckAllIff(slot, items[1..]);
      assert forall i :: 1 <= i < |items| ==> items[i] == items[1..][i - 1];
    }
  }

  /**
   * A write succeeds, its own check included, exactly when the padded items fit and every item is the
   * first of its type with no empty item before it, or equal to the first; distinct non-empty types do.
   */
  lemma WriteSucceedsIff(items: seq<Item>, junk: seq<byte>)
    requires |junk| == Padding(items)
    ensures WriteResult(items, junk).1 == EccSuccess
            <==> Fits(items) && forall i :: 0 <= i < |items| ==> Lookup(items, items[i].kind) == Hit(items[i].data)
    ensures Fits(items) && DistinctKinds(items) ==> WriteResult(items, junk) == (Written(items, junk), EccSuccess)
  {
    hide Written, Lookup, CheckItem, Fits, CheckAll;
    if Fits(items) {
      var slot := Written(items, junk);
      CheckAllIff(slot, items);
      forall i | 0 <= i < |items|
        ensures CheckItem(slot, items[i]) == EccSuccess <==> Lookup(items, items[i].kind) == Hit(items[i].data)
      {
        CheckItemIff(items, junk, i);
      }
      if DistinctKinds(items) {
        forall i | 0 <= i < |items| ensures Lookup(items, items[i].kind) == Hit(items[i].data) {
          DistinctHit(items, i);
        }
      }
    }
  }

  // ----- the C++ functions -----

  /** readProvisionItem, on a slot in which the reader does not go round forever. */
  method ReadProvisionItem(slot: array<byte>, kind: ItemType, buffer: array<byte>, size: nat) returns (st: EccStatus, newSize: nat)
    requires slot.Length == SLOT_SIZE && size <= buffer.Length && size < SIZE_T && buffer != slot
    requires ReadItem(slot[..], kind, size) != Loops
    modifies buffer
    ensures match ReadItem(old(slot[..]), kind, size)
            case Found(d) => st == EccSuccess && newSize == |d| < size && buffer[..newSize] == d && buffer[newSize] == 0
            case Fails(status) => st == status && newSize == 0 && buffer[..] == old(buffer[..])
            case Loops => true
    ensures forall i :: size <= i < buffer.Length ==> buffer[i] == old(buffer[i])
  {
    hide ReadItem, KindOf, NextOf, DataSize, HasRoom;
    ghost var s: seq<byte> := slot[..];
    ghost var seen: set<nat> := {};
    var at: nat := 0;
    var header := new byte[HEADER](_ => 0);
    StartReading(s, kind, size);
    while true
      invariant at + HEADER <= SLOT_SIZE && slot[..] == s && buffer[..] == old(buffer[..])
      invariant ReadFrom(s, kind, size, at, seen) == ReadItem(s, kind, size)
      decreases Offsets() - seen
    {
      header[0], header[1] := slot[at], slot[at + 1];
      assert at in Offsets() - seen;
      var k, next := KindOf(header[0], header[1]), NextOf(header[0], header[1]);
      if k == kind {
        var dataSize := DataSize(at, next);
        if HasRoom(dataSize, size) {
          if at + HEADER + dataSize > SLOT_SIZE {
            return ReadError, 0;
          }
          RoomMeans(dataSize, size);
          GiveData(slot, at + HEADER, dataSize, buffer);
          return EccSuccess, dataSize;
        }
        return SmallBuffer, 0;
      }
      seen := seen + {at};
      at := next;
      if k == EMPTY || at + HEADER > SLOT_SIZE {
        break;
      }
    }
    return InvalidId, 0;
  }

  lemma StartReading(s: seq<byte>, kind: ItemType, size: nat)
    requires |s| == SLOT_SIZE
    ensures ReadItem(s, kind, size) == ReadFrom(s, kind, size, 0, {})
  {
  }

  lemma RoomMeans(dataSize: nat, size: nat)
    requires HasRoom(dataSize, size) && dataSize <= SLOT_SIZE
    ensures dataSize < size
  {
  }

  /** Reads the item's data and terminates it. */
  method GiveData(slot: array<byte>, at: nat, n: nat, buffer: array<byte>)
    requires at + n <= slot.Length && n < buffer.Length && buffer != slot
    modifies buffer
    ensures buffer[..n] == slot[at..at + n] && buffer[n] == 0
    ensures forall i :: n < i < buffer.Length ==> buffer[i] == old(buffer[i])
  {
    CopyInto(buffer, 0, slot[at..at + n]);
    assert buffer[..n] == slot[at..at + n];
    buffer[n] := 0;
  }

  /** writeProvisionData; junk is what its payload buffer happened to hold behind the items. */
  method WriteProvisionData(items: seq<Item>, slot: array<byte>) returns (st: EccStatus, ghost junk: seq<byte>)
    requires slot.Length == SLOT_SIZE
    modifies slot
    ensures |junk| == Padding(items) && (slot[..], st) == WriteResult(items, junk)
  {
    hide Packed, CheckAll, ReadItem, Padding, Fits;
    Zero(slot, 0, SLOT_SIZE);
    assert slot[..] == Zeros(SLOT_SIZE);
    junk := Zeros(Padding(items));
    var payloadSize := 0;
    var i := 0;
    while i < |items|
      invariant 0 <= i <= |items| && payloadSize + Total(items[i..]) == Total(items)
    {
      assert items[i..][1..] == items[i + 1..];
      payloadSize := payloadSize + HEADER + |items[i].data|;
      i := i + 1;
    }
    payloadSize := PaddedSize(payloadSize);
    assert Fits(items) <==> payloadSize <= SLOT_SIZE by { FitsIs(items); }
    if payloadSize > SLOT_SIZE {
      return InvalidSize, junk;
    }
    var payload;
    payload, junk := BuildPayload(items, payloadSize);
    WritePayload(items, slot, payload, junk);
    st := Verify(items, slot, junk);
  }

  lemma FitsIs(items: seq<Item>)
    ensures Fits(items) <==> PaddedSize(Total(items)) <= SLOT_SIZE
  {
  }

  method WritePayload(items: seq<Item>, slot: array<byte>, payload: array<byte>, ghost junk: seq<byte>)
    requires Fits(items) && |junk| == Padding(items) && payload[..] == Packed(items, 0) + junk
    requires slot.Length == SLOT_SIZE && slot[..] == Zeros(SLOT_SIZE) && payload != slot
    modifies slot
    ensures slot[..] == Written(items, junk)
  {
    hide Packed;
    CopyInto(slot, 0, payload[..]);
  }

  /** The payload buffer, filled item by item; nobody sets the padding. */
  method BuildPayload(items: seq<Item>, size: nat) returns (payload: array<byte>, ghost junk: seq<byte>)
    requires Fits(items) && size == PaddedSize(Total(items))
    ensures fresh(payload) && |junk| == Padding(items) && payload[..] == Packed(items, 0) + junk
  {
    hide HeaderOctets, Packed, Padding, PaddedSize, Total;
    payload := new byte[size];
    var at: nat, i := 0, 0;
    assert items[0..] == items;
    assert payload[..0] + Packed(items, 0) == Packed(items, 0);
    while i < |items|
      invariant 0 <= i <= |items| && at <= size && at + Total(items[i..]) == Total(items)
      invariant payload[..at] + Packed(items[i..], at) == Packed(items, 0)
    {
      PackedStep(items, i, at);
      ghost var before := payload[..at];
      var next := at + HEADER + |items[i].data|;
      PutItem(payload, at, items[i]);
      Regroup(before, HeaderOctets(items[i].kind, next) + items[i].data, Packed(items[i + 1..], next));
      at := next;
      i := i + 1;
    }
    junk := payload[at..];
    NothingLeft(items[i..], at);
    PaddingIs(items);
    assert payload[..at] + [] == payload[..at];
    assert payload[..] == payload[..at] + payload[at..];
  }

  lemma NothingLeft(items: seq<Item>, at: nat)
    requires items == []
    ensures Packed(items, at) == [] && Total(items) == 0
  {
  }

  lemma PaddingIs(items: seq<Item>)
    ensures Padding(items) == PaddedSize(Total(items)) - Total(items)
  {
  }

  lemma PackedStep(items: seq<Item>, i: nat, at: nat)
    requires i < |items|
    ensures var next := at + HEADER + |items[i].data|;
            && Total(items[i..]) == HEADER + |items[i].data| + Total(items[i + 1..])
            && Packed(items[i..], at) == HeaderOctets(items[i].kind, next) + items[i].data + Packed(items[i + 1..], next)
  {
    assert items[i..][1..] == items[i + 1..];
  }

  method PutItem(payload: array<byte>, at: nat, item: Item)
    requires at + HEADER + |item.data| <= payload.Length
    modifies payload
    ensures var next := at + HEADER + |item.data|;
            payload[..next] == old(payload[..at]) + (HeaderOctets(item.kind, next) + item.data)
  {
    hide HeaderOctets, Splice;
    var next := at + HEADER + |item.data|;
    ghost var was: seq<byte> := payload[..];
    var header := HeaderOctets(item.kind, next);
    CopyInto(payload, at, header);
    CopyInto(payload, at + HEADER, item.data);
    SpliceAppend(was, at, header, item.data);
    SplicedFront(was, at, header + item.data);
  }

  lemma SplicedFront(s: seq<byte>, at: nat, data: seq<byte>)
    requires at + |data| <= |s|
    ensures Splice(s, at, data)[..at + |data|] == s[..at] + data
  {
  }

  /** Lines 204-219: reads every item back. */
  method Verify(items: seq<Item>, slot: array<byte>, ghost junk: seq<byte>) returns (st: EccStatus)
    requires slot.Length == SLOT_SIZE && Fits(items) && |junk| == Padding(items) && slot[..] == Written(items, junk)
    ensures st == CheckAll(Written(items, junk), items)
  {
    hide ReadItem, Written, Padding;
    ghost var s := Written(items, junk);
    assert items[0..] == items;
    var i := 0;
    while i < |items|
      invariant 0 <= i <= |items| && CheckAll(s, items[i..]) == CheckAll(s, items)
    {
      assert items[i..][0] == items[i] && items[i..][1..] == items[i + 1..];
      CheckItemIff(items, junk, i);
      ItemFits(items, i);
      var wanted := items[i].data;
      var buffer := new byte[|wanted| + 1];
      var size;
      st, size := ReadProvisionItem(slot, items[i].kind, buffer, |wanted| + 1);
      if st != EccSuccess {
        return;
      }
      if size != |wanted| || buffer[..size] != wanted {
        return AssertFailure;
      }
      i := i + 1;
    }
    st := EccSuccess;
  }

  lemma {:induction false} ItemFits(items: seq<Item>, i: nat)
    requires i < |items|
    ensures HEADER + |items[i].data| <= Total(items)
    decreases |items|
  {
    if i > 0 {
      ItemFits(items[1..], i - 1);
    }
  }
}
