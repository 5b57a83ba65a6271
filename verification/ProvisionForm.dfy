/**
 * The provisioning list in terms of its octets (src/ecc608.cpp, lines 10-41): a header is a 16-bit word,
 * least significant octet first, of nine bits of offset and seven of type.
 */
module ProvisionForm {
  import opened Bytes
  import opened ProvisionList

  // ----- headers -----

  function Word(slot: seq<byte>, at: nat): nat
    requires at + 2 <= |slot|
  {
    var b0: int, b1: int := slot[at], slot[at + 1];
    b0 + 256 * b1
  }

  lemma HeaderForm(kind: ItemType, next: nat)
    requires next < 512
    ensures Word(HeaderOctets(kind, next), 0) == next + 512 * kind as int
  {
  }

  lemma HeaderRead(slot: seq<byte>, at: nat)
    requires at + 2 <= |slot|
    ensures NextOf(slot[at], slot[at + 1]) == Word(slot, at) % 512
    ensures KindOf(slot[at], slot[at + 1]) as int == Word(slot, at) / 512
  {
    var b0: int, b1: int := slot[at], slot[at + 1];
    assert Word(slot, at) == (b0 + 256 * (b1 % 2)) + 512 * (b1 / 2);
  }

  // ----- what is written -----

  /** Where the i-th item begins. */
  ghost function PlaceOf(items: seq<Item>, i: nat): nat
    requires i <= |items|
  {
    if i == 0 then 0 else PlaceOf(items, i - 1) + 2 + |items[i - 1].data|
  }

  lemma {:induction false} PlaceBehind(items: seq<Item>, i: nat)
    requires items != [] && i <= |items| - 1
    ensures PlaceOf(items, i + 1) == 2 + |items[0].data| + PlaceOf(items[1..], i)
  {
    if i > 0 {
      PlaceBehind(items, i - 1);
    }
  }

  lemma {:induction false} TotalIsPlace(items: seq<Item>)
    ensures Total(items) == PlaceOf(items, |items|)
  {
    if items != [] {
      TotalIsPlace(items[1..]);
      PlaceBehind(items, |items| - 1);
    }
  }

  lemma {:induction false} PackedItem(items: seq<Item>, at: nat, i: nat)
    requires i < |items| && at + Total(items) < 512
    ensures var p, a, n := Packed(items, at), PlaceOf(items, i), |items[i].data|;
            && a + 2 + n <= |p| && Word(p, a) == (at + a + 2 + n) + 512 * items[i].kind as int
            && p[a + 2..a + 2 + n] == items[i].data
    decreases |items|
  {
    hide HeaderOctets, Word;
    var first, next := items[0], at + HEADER + |items[0].data|;
    var h, rest, p := HeaderOctets(first.kind, next), Packed(items[1..], next), Packed(items, at);
    assert p == h + first.data + rest;
    if i == 0 {
      HeaderForm(first.kind, next);
      FirstPacked(h, first.data, rest);
    } else {
      PackedItem(items[1..], next, i - 1);
      PlaceBehind(items, i - 1);
      Behind(h + first.data, rest, PlaceOf(items[1..], i - 1), |items[i].data|);
    }
  }

  lemma FirstPacked(h: seq<byte>, data: seq<byte>, rest: seq<byte>)
    requires |h| == 2
    ensures var p := h + data + rest; Word(p, 0) == Word(h, 0) && p[2..2 + |data|] == data
  {
  }

  lemma Behind(front: seq<byte>, rest: seq<byte>, b: nat, n: nat)
    requires b + 2 + n <= |rest|
    ensures var p, a := front + rest, |front| + b; Word(p, a) == Word(rest, b) && p[a + 2..a + 2 + n] == rest[b + 2..b + 2 + n]
  {
  }

  /**
   * What a write leaves in the slot: each item's data behind a header that names the item's type and the
   * place where the next item would begin, one item after the other; zeros behind the last block.
   */
  lemma WrittenForm(items: seq<Item>, junk: seq<byte>, i: nat)
    requires Fits(items) && |junk| == Padding(items) && i < |items|
    ensures var slot, a, n := Written(items, junk), PlaceOf(items, i), |items[i].data|;
            && a + 2 + n <= 416 && Word(slot, a) == PlaceOf(items, i + 1) + 512 * items[i].kind as int
            && slot[a + 2..a + 2 + n] == items[i].data
    ensures forall k :: (PlaceOf(items, |items|) + 31) / 32 * 32 <= k < 416 ==> Written(items, junk)[k] == 0
  {
    hide Packed;
    TotalIsPlace(items);
    var slot, p := Written(items, junk), Packed(items, 0);
    BlocksUp(Total(items));
    PackedItem(items, 0, i);
    var a, n := PlaceOf(items, i), |items[i].data|;
    assert slot[a] == p[a] && slot[a + 1] == p[a + 1];
    assert slot[a + 2..a + 2 + n] == p[a + 2..a + 2 + n];
  }

  lemma BlocksUp(n: nat)
    ensures PaddedSize(n) == (n + 31) / 32 * 32
  {
  }

  // ----- what is read -----

  /** From the front of the slot from header to header, past other types, without coming back to one. */
  ghost predicate IsPath(slot: seq<byte>, kind: ItemType, path: seq<nat>)
    requires |slot| == 416
  {
    && path != [] && path[0] == 0
    && (forall j :: 0 <= j < |path| ==> path[j] + 2 <= 416)
    && (forall j :: 0 < j < |path| ==> Steps(slot, kind, path[j - 1], path[j]))
    && forall i, j :: 0 <= i < j < |path| ==> path[i] != path[j]
  }

  /** The header at a is of another type, not empty, and names b. */
  ghost predicate Steps(slot: seq<byte>, kind: ItemType, a: nat, b: nat)
    requires |slot| == 416
  {
    a + 2 <= 416 && Word(slot, a) / 512 != 0 && Word(slot, a) / 512 != kind as int && Word(slot, a) % 512 == b
  }

  /** The data of the header at a end where the next header is, and fit the slot and the buffer. */
  ghost predicate Answers(slot: seq<byte>, kind: ItemType, size: nat, a: nat, d: seq<byte>)
    requires |slot| == 416
  {
    var next := a + 2 + |d|;
    a + 2 <= next <= 416 && |d| < size && Word(slot, a) == next + 512 * kind as int && slot[a + 2..next] == d
  }

  /**
   * A read succeeds with some data exactly when a path from the front of the slot, over headers of other
   * types, leads to a header of the wanted type and these are its data. (A buffer has fewer than 65536
   * octets.)
   */
  lemma ReadForm(slot: seq<byte>, kind: ItemType, size: nat, d: seq<byte>)
    requires |slot| == 416 && size < SIZE_T
    ensures ReadItem(slot, kind, size) == Outcome.Found(d)
            <==> exists path: seq<nat> :: LeadsTo(slot, kind, size, path, d)
  {
    hide ReadFrom, LeadsTo;
    PathStart(slot, kind);
    if ReadItem(slot, kind, size) == Outcome.Found(d) {
      var path := FoundPath(slot, kind, size, d, [0], {});
    }
    forall path: seq<nat> | LeadsTo(slot, kind, size, path, d) ensures ReadItem(slot, kind, size) == Outcome.Found(d) {
      IsPathFront(slot, kind, size, path, d);
      PathFinds(slot, kind, size, d, path, 0, {});
    }
  }

  ghost predicate LeadsTo(slot: seq<byte>, kind: ItemType, size: nat, path: seq<nat>, d: seq<byte>)
    requires |slot| == 416
  {
    IsPath(slot, kind, path) && Answers(slot, kind, size, path[|path| - 1], d)
  }

  lemma PathStart(slot: seq<byte>, kind: ItemType)
    requires |slot| == 416
    ensures IsPath(slot, kind, [0])
  {
  }

  lemma IsPathFront(slot: seq<byte>, kind: ItemType, size: nat, path: seq<nat>, d: seq<byte>)
    requires |slot| == 416 && LeadsTo(slot, kind, size, path, d)
    ensures path != [] && path[0] == 0
  {
  }

  ghost predicate Visited(path: seq<nat>, seen: set<nat>) {
    forall x :: x in seen <==> x in path
  }

  /** One step of the reader. */
  lemma ReadStep(slot: seq<byte>, kind: ItemType, size: nat, at: nat, seen: set<nat>)
    requires |slot| == 416 && at + 2 <= 416 && size < SIZE_T && at !in seen
    ensures Word(slot, at) / 512 == kind as int ==>
              forall d :: ReadFrom(slot, kind, size, at, seen) == Outcome.Found(d) <==> Answers(slot, kind, size, at, d)
    ensures Word(slot, at) / 512 != kind as int ==> forall d :: !Answers(slot, kind, size, at, d)
    ensures Word(slot, at) / 512 != kind as int ==>
              var b := Word(slot, at) % 512;
              if Steps(slot, kind, at, b) && b + 2 <= 416 then
                ReadFrom(slot, kind, size, at, seen) == ReadFrom(slot, kind, size, b, seen + {at})
              else !ReadFrom(slot, kind, size, at, seen).Found?
  {
    hide Word, KindOf, NextOf;
    HeaderRead(slot, at);
    WordParts(slot, at);
  }

  lemma WordParts(slot: seq<byte>, at: nat)
    requires at + 2 <= |slot|
    ensures Word(slot, at) == Word(slot, at) / 512 * 512 + Word(slot, at) % 512
  {
  }

  lemma FoundPath(slot: seq<byte>, kind: ItemType, size: nat, d: seq<byte>, path: seq<nat>, seen: set<nat>) returns (whole: seq<nat>)
    requires |slot| == 416 && size < SIZE_T && IsPath(slot, kind, path) && path[|path| - 1] + 2 <= 416
    requires Visited(path[..|path| - 1], seen)
    requires ReadFrom(slot, kind, size, path[|path| - 1], seen) == Outcome.Found(d)
    ensures LeadsTo(slot, kind, size, whole, d)
    decreases Offsets() - seen
  {
    hide Word, Answers;
    var at := path[|path| - 1];
    LastUnseen(path, seen);
    ReadStep(slot, kind, size, at, seen);
    if Word(slot, at) / 512 == kind as int {
      whole := path;
    } else {
      var b := Word(slot, at) % 512;
      NotSeenAgain(slot, kind, size, b, seen + {at});
      VisitedMore(path, seen);
      NewPlace(path, seen + {at}, b);
      assert (path + [b])[..|path|] == path;
      assert at in Offsets();
      whole := FoundPath(slot, kind, size, d, path + [b], seen + {at});
    }
  }

  lemma LastUnseen(path: seq<nat>, seen: set<nat>)
    requires path != [] && Visited(path[..|path| - 1], seen)
    requires forall i, j :: 0 <= i < j < |path| ==> path[i] != path[j]
    ensures path[|path| - 1] !in seen
  {
  }

  lemma NotSeenAgain(slot: seq<byte>, kind: ItemType, size: nat, at: nat, seen: set<nat>)
    requires |slot| == 416 && at + 2 <= 416
    ensures at in seen ==> ReadFrom(slot, kind, size, at, seen) == Loops
  {
  }

  lemma VisitedMore(path: seq<nat>, seen: set<nat>)
    requires path != [] && Visited(path[..|path| - 1], seen)
    ensures Visited(path, seen + {path[|path| - 1]})
  {
    assert path == path[..|path| - 1] + [path[|path| - 1]];
  }

  lemma NewPlace(path: seq<nat>, seen: set<nat>, b: nat)
    requires Visited(path, seen) && b !in seen
    ensures forall j :: 0 <= j < |path| ==> path[j] != b
  {
  }

  lemma PathFinds(slot: seq<byte>, kind: ItemType, size: nat, d: seq<byte>, path: seq<nat>, i: nat, seen: set<nat>)
    requires |slot| == 416 && size < SIZE_T && LeadsTo(slot, kind, size, path, d) && i < |path| && Visited(path[..i], seen)
    ensures path[i] + 2 <= 416 && ReadFrom(slot, kind, size, path[i], seen) == Outcome.Found(d)
    decreases |path| - i
  {
    hide Word, Answers;
    assert path[..i + 1][..i] == path[..i];
    LastUnseen(path[..i + 1], seen);
    ReadStep(slot, kind, size, path[i], seen);
    if i < |path| - 1 {
      assert Steps(slot, kind, path[i], path[i + 1]);
      VisitedMore(path[..i + 1], seen);
      PathFinds(slot, kind, size, d, path, i + 1, seen + {path[i]});
    }
  }

  /** A list too large for the slot is refused, and leaves the slot cleared. */
  lemma TooLarge(items: seq<Item>, junk: seq<byte>)
    requires |junk| == Padding(items)
    ensures (PlaceOf(items, |items|) + 31) / 32 * 32 > 416 ==> WriteResult(items, junk) == (Zeros(416), InvalidSize)
  {
    hide Written, CheckAll, PlaceOf, Total, PaddedSize;
    TotalIsPlace(items);
    BlocksUp(Total(items));
  }
}
