/**
 * Base64 in terms of the alphabet and the bits of the data (RFC 4648 section 4): what
 * atcab_base64encode_ writes and what atcab_base64decode_ accepts, for every rule set that loses nothing.
 */
module Base64Form {
  import opened Bytes
  import opened Division
  import opened BigEndian
  import opened Base64Codec

  // ----- the alphabet -----

  /** Table 1 of RFC 4648, without its last two characters, which the rules choose. */
  const ALPHABET: string :=
    "ABCDEFGHIJKLM" + "NOPQRSTUVWXYZ" + "abcdefghijklm" + "nopqrstuvwxyz" + "0123456789"

  function Symbol(rules: Rules, n: nat): byte
    requires n < 64
  {
    if n == 62 then rules.c62 else if n == 63 then rules.c63 else ALPHABET[n] as int
  }

  lemma CapitalAt(n: nat)
    requires n < 26
    ensures ALPHABET[n] as int == 65 + n
  {
  }

  lemma SmallAt(n: nat)
    requires 26 <= n < 52
    ensures ALPHABET[n] as int == 97 + n - 26
  {
  }

  lemma FigureAt(n: nat)
    requires 52 <= n < 62
    ensures ALPHABET[n] as int == 48 + n - 52
  {
  }

  lemma CharIsSymbol(rules: Rules, n: nat)
    requires n < 64
    ensures Char(rules, n) == Symbol(rules, n)
  {
    if n < 26 {
      CapitalAt(n);
    } else if n < 52 {
      SmallAt(n);
    } else if n < 62 {
      FigureAt(n);
    }
  }

  // ----- numbers in sextets -----

  function Value64(ids: seq<byte>): nat {
    if ids == [] then 0 else Value64(ids[..|ids| - 1]) * 64 + ids[|ids| - 1]
  }

  function Pow64(k: nat): (p: nat)
    ensures p > 0
  {
    if k == 0 then 1 else 64 * Pow64(k - 1)
  }

  lemma {:induction false} Value64Concat(a: seq<byte>, b: seq<byte>)
    ensures Value64(a + b) == Value64(a) * Pow64(|b|) + Value64(b)
  {
    if b == [] {
      assert a + b == a;
    } else {
      var front := b[..|b| - 1];
      assert (a + b)[..|a + b| - 1] == a + front;
      Value64Concat(a, front);
      Rearrange(Value64(a), Pow64(|front|), Value64(front), 64);
    }
  }

  lemma Rearrange(v: int, p: int, w: int, k: int)
    ensures (v * p + w) * k == v * (k * p) + w * k
  {
    Associate(v, p, k);
    Commute(p, k);
    Distribute(v * p, -w, k);
  }

  lemma Commute(a: int, b: int)
    ensures a * b == b * a
  {
  }

  lemma {:induction false} ValueConcat(a: seq<byte>, b: seq<byte>)
    ensures Value(a + b) == Value(a) * Pow256(|b|) + Value(b)
  {
    if b == [] {
      assert a + b == a;
    } else {
      var front := b[..|b| - 1];
      assert (a + b)[..|a + b| - 1] == a + front;
      ValueConcat(a, front);
      Rearrange(Value(a), Pow256(|front|), Value(front), 0x100);
    }
  }

  lemma {:induction false} Value64Bound(ids: seq<byte>)
    requires AreSextets(ids)
    ensures Value64(ids) < Pow64(|ids|)
  {
    if ids != [] {
      Value64Bound(ids[..|ids| - 1]);
    }
  }

  // ----- the text of some data -----

  /** What the zero bits behind n octets, up to a multiple of six bits, multiply by. */
  function Slack(n: nat): nat {
    if n % 3 == 0 then 1 else if n % 3 == 1 then 16 else 4
  }

  /** The sextets that n octets take, and the k-th of them. */
  function SextetCountOf(n: nat): nat { (8 * n + 5) / 6 }

  ghost function Sextet(d: seq<byte>, k: nat): (x: nat)
    requires k < SextetCountOf(|d|)
    ensures x < 64
  {
    Value(d) * Slack(|d|) / Pow64(SextetCountOf(|d|) - 1 - k) % 64
  }

  lemma {:induction false} CoreValue(d: seq<byte>)
    ensures Value64(Core(d)) == Value(d) * Slack(|d|)
    decreases |d|
  {
    hide Core, Quad, Value, Value64, Pow64, Pow256, Slack;
    CoreParts(d);
    if |d| <= 3 {
      FewValue(d);
    } else {
      var a, b, x, y := d[..3], d[3..], Quad(d[..3]), Core(d[3..]);
      CoreValue(b);
      Value64Concat(x, y);
      ValueConcat(a, b);
      assert d == a + b;
      ThreeOctets(a);
      Widths(|b|);
      SextetsOfThree(|d|);
      CoreStep(Value64(x), Pow64(|y|), Value64(y), Value(a), Pow256(|b|), Slack(|b|), Value(b));
    }
  }

  lemma CoreStep(x: nat, p64: nat, y: nat, v: nat, p: nat, s: nat, w: nat)
    requires x == v && y == w * s && p64 == p * s
    ensures x * p64 + y == (v * p + w) * s
  {
    BothParts(v, p, s, w);
  }

  lemma CoreParts(d: seq<byte>)
    ensures |d| > 3 ==> Core(d) == Quad(d[..3]) + Core(d[3..])
    ensures 0 < |d| <= 3 ==> Core(d) == Quad(d)
    ensures d == [] ==> Core(d) == []
  {
  }

  lemma BothParts(v: int, p: int, s: int, w: int)
    ensures (v * p + w) * s == v * (p * s) + w * s
  {
    Distribute(v * p, -w, s);
    Associate(v, p, s);
  }

  /** As many bits in the sextets as in the octets and the slack. */
  lemma {:induction false} Widths(n: nat)
    ensures SextetCountOf(n) == (4 * n + 2) / 3
    ensures Pow64(SextetCountOf(n)) == Pow256(n) * Slack(n)
  {
    if n < 3 {
      assert Pow64(2) == 4096 && Pow64(3) == 262144 by { assert Pow64(1) == 64; }
      assert Pow256(1) == 256 && Pow256(2) == 65536;
    } else {
      Widths(n - 3);
      SextetsOfThree(n);
      FourAndThree(SextetCountOf(n - 3), n - 3);
      Associate(0x100_0000, Pow256(n - 3), Slack(n));
    }
  }

  lemma SextetsOfThree(n: nat)
    requires n >= 3
    ensures SextetCountOf(n) == SextetCountOf(n - 3) + 4 && Slack(n) == Slack(n - 3)
  {
  }

  lemma FourAndThree(m: nat, n: nat)
    ensures Pow64(m + 4) == 0x100_0000 * Pow64(m) && Pow256(n + 3) == 0x100_0000 * Pow256(n)
  {
    assert Pow64(m + 4) == 64 * (64 * (64 * (64 * Pow64(m)))) by {
      assert Pow64(m + 3) == 64 * (64 * (64 * Pow64(m))) by { assert Pow64(m + 2) == 64 * (64 * Pow64(m)); }
    }
    assert Pow256(n + 3) == 0x100 * (0x100 * (0x100 * Pow256(n))) by { assert Pow256(n + 2) == 0x100 * (0x100 * Pow256(n)); }
  }

  lemma FewValue(d: seq<byte>)
    requires |d| <= 3
    ensures Value64(if d == [] then [] else Quad(d)) == Value(d) * Slack(|d|)
  {
    hide Value, Value64, Quad;
    if |d| == 1 {
      OneOctet(d);
    } else if |d| == 2 {
      TwoOctets(d);
    } else if |d| == 3 {
      ThreeOctets(d);
    } else {
      NoValue();
      assert d == [];
    }
  }

  lemma NoValue()
    ensures Value64([]) == 0 && Value([]) == 0
  {
  }

  lemma OneOctet(d: seq<byte>)
    requires |d| == 1
    ensures Value64(Quad(d)) == Value(d) * 16
  {
    hide Value, Value64;
    Octets1(d);
    Sextets2(Quad(d));
    var a: int := d[0];
    assert a / 4 * 64 + a % 4 * 16 == a * 16;
  }

  lemma TwoOctets(d: seq<byte>)
    requires |d| == 2
    ensures Value64(Quad(d)) == Value(d) * 4
  {
    hide Value, Value64;
    Octets2(d);
    Sextets3(Quad(d));
    var a: int, b: int := d[0], d[1];
    assert a / 4 * 4096 + (a % 4 * 16 + b / 16) * 64 + b % 16 * 4 == (a * 0x100 + b) * 4;
  }

  lemma ThreeOctets(d: seq<byte>)
    requires |d| == 3
    ensures Value64(Quad(d)) == Value(d)
  {
    hide Value, Value64;
    Octets3(d);
    Sextets4(Quad(d));
    var a: int, b: int, c: int := d[0], d[1], d[2];
    assert a / 4 * 262144 + (a % 4 * 16 + b / 16) * 4096 + (b % 16 * 4 + c / 64) * 64 + c % 64 == a * 0x1_0000 + b * 0x100 + c;
  }

  lemma Octets1(d: seq<byte>)
    requires |d| == 1
    ensures Value(d) == d[0]
  {
    assert d[..0] == [];
  }

  lemma Octets2(d: seq<byte>)
    requires |d| == 2
    ensures var a: int, b: int := d[0], d[1]; Value(d) == a * 0x100 + b
  {
    Octets1(d[..1]);
  }

  lemma Octets3(d: seq<byte>)
    requires |d| == 3
    ensures var a: int, b: int, c: int := d[0], d[1], d[2]; Value(d) == a * 0x1_0000 + b * 0x100 + c
  {
    Octets2(d[..2]);
  }

  lemma Sextets2(q: seq<byte>)
    requires |q| == 2
    ensures var a: int, b: int := q[0], q[1]; Value64(q) == a * 64 + b
  {
    assert q[..1][..0] == [] && q[..1][0] == q[0];
    assert Value64(q[..1]) == q[0];
  }

  lemma Sextets3(q: seq<byte>)
    requires |q| == 3
    ensures var a: int, b: int, c: int := q[0], q[1], q[2]; Value64(q) == a * 4096 + b * 64 + c
  {
    Sextets2(q[..2]);
  }

  lemma Sextets4(q: seq<byte>)
    requires |q| == 4
    ensures var a: int, b: int, c: int, d: int := q[0], q[1], q[2], q[3]; Value64(q) == a * 262144 + b * 4096 + c * 64 + d
  {
    Sextets3(q[..3]);
  }

  /** A sextet of a number in sextets. */
  lemma {:induction false} DigitOf(ids: seq<byte>, k: nat)
    requires AreSextets(ids) && k < |ids|
    ensures Value64(ids) / Pow64(|ids| - 1 - k) % 64 == ids[k]
    decreases |ids|
  {
    var front, last := ids[..|ids| - 1], ids[|ids| - 1];
    if k < |ids| - 1 {
      DigitOf(front, k);
      DropLast(Value64(front), last, Pow64(|ids| - 2 - k));
    }
  }

  lemma DropLast(v: nat, x: nat, p: nat)
    requires x < 64 && p > 0
    ensures (v * 64 + x) / (64 * p) == v / p
  {
    var q, r := v / p, v % p;
    assert v == p * q + r;
    Commute(p, q);
    assert v * 64 + x == q * (64 * p) + (64 * r + x) by {
      Distribute(q * p, -r, 64);
      Associate(q, p, 64);
      Commute(p, 64);
    }
    QuotientUnique(v * 64 + x, q, 64 * r + x, 64 * p);
  }

  /** The sextets of the text are those of the data. */
  lemma SextetOfCore(d: seq<byte>, k: nat)
    requires k < SextetCountOf(|d|)
    ensures |Core(d)| == SextetCountOf(|d|) && Core(d)[k] == Sextet(d, k)
  {
    hide Core, Value64, Value;
    Widths(|d|);
    CoreValue(d);
    DigitOf(Core(d), k);
  }

  // ----- what the encoder writes -----

  /** How many characters the text has before it is cut into lines: with a pad, whole groups of four. */
  function Characters(rules: Rules, n: nat): nat {
    if rules.pad == 0 then SextetCountOf(n) else (n + 2) / 3 * 4
  }

  /** The k-th character of the text of d. */
  ghost function Written(rules: Rules, d: seq<byte>, k: nat): byte {
    if k < SextetCountOf(|d|) then Symbol(rules, Sextet(d, k)) else rules.pad
  }

  lemma FlatForm(rules: Rules, d: seq<byte>)
    ensures |Flat(rules, d)| == (|d| + 2) / 3 * 4 && |Chars(rules, Core(d))| == SextetCountOf(|d|) <= |Flat(rules, d)|
    ensures forall k :: 0 <= k < |Flat(rules, d)| ==> Flat(rules, d)[k] == Written(rules, d, k)
    ensures forall k :: 0 <= k < SextetCountOf(|d|) ==> Chars(rules, Core(d))[k] == Written(rules, d, k)
  {
    hide Core, Char, Symbol, Sextet;
    Widths(|d|);
    forall k | 0 <= k < SextetCountOf(|d|) ensures Chars(rules, Core(d))[k] == Written(rules, d, k) {
      SextetOfCore(d, k);
      CharIsSymbol(rules, Core(d)[k]);
    }
    PadsFill(|d|);
  }

  lemma PadsFill(n: nat)
    ensures SextetCountOf(n) + Pads(n) == TextSize(n) == (n + 2) / 3 * 4
  {
    var q, r := n / 3, n % 3;
    assert n == 3 * q + r && (8 * n + 5) / 6 == 4 * q + (8 * r + 5) / 6;
  }

  /** Every character of an encoded text: lines of the rule's length, CR LF between them, and the symbols. */
  lemma EncodedForm(rules: Rules, d: seq<byte>, i: nat)
    requires Faithful(rules) && i < |Encoded(rules, d)|
    ensures var line := rules.line;
            if line == 0 then i < Characters(rules, |d|) && Encoded(rules, d)[i] == Written(rules, d, i)
            else if Column(i, line) == line then Encoded(rules, d)[i] == CR
            else if Column(i, line) == line + 1 then Encoded(rules, d)[i] == LF
            else Place(i, line) < Characters(rules, |d|) && Encoded(rules, d)[i] == Written(rules, d, Place(i, line))
  {
    hide Encoded, Faithful, Flat, Core, Chars, Lines, Written, Row, Column, Place;
    WhatIsEncoded(rules, d);
    FlatForm(rules, d);
    var t := if rules.pad == 0 then Chars(rules, Core(d)) else Flat(rules, d);
    if rules.line > 0 {
      LinesAt(t, rules.line, i);
    } else {
      NoLines(t);
    }
  }

  lemma NoLines(t: seq<byte>)
    ensures Lines(t, 0) == t
  {
  }

  /** The size of an encoded text. */
  lemma EncodedSize(rules: Rules, d: seq<byte>)
    requires Faithful(rules)
    ensures var n := Characters(rules, |d|);
            |Encoded(rules, d)| == n + if rules.line == 0 || n == 0 then 0 else (n - 1) / rules.line * 2
  {
    hide Encoded, Faithful, Flat, Core, Chars, Lines, Written;
    WhatIsEncoded(rules, d);
    FlatForm(rules, d);
    LinesSize(if rules.pad == 0 then Chars(rules, Core(d)) else Flat(rules, d), rules.line);
  }

  // ----- what the decoder accepts -----

  /** How many indices there are in front of the first pad. */
  ghost function Lead(ids: seq<byte>): (k: nat)
    ensures k <= |ids| && (forall i :: 0 <= i < k ==> ids[i] != EQUAL) && (k < |ids| ==> ids[k] == EQUAL)
  {
    if ids == [] || ids[0] == EQUAL then 0 else 1 + Lead(ids[1..])
  }

  /** What n sextets may be followed by: a last group of two or three may be completed by pads. */
  predicate Closes(n: nat, pads: nat) {
    if n % 4 == 0 then pads == 0 else if n % 4 == 1 then false else pads <= 4 - n % 4
  }

  ghost predicate AllPads(ids: seq<byte>) {
    forall i :: 0 <= i < |ids| ==> ids[i] == EQUAL
  }

  ghost predicate Closed(ids: seq<byte>) {
    Closes(Lead(ids), |ids| - Lead(ids)) && AllPads(ids[Lead(ids)..])
  }

  /** What the bits beyond the last whole octet of n sextets multiply by. */
  function Excess(n: nat): (x: nat)
    ensures x > 0
  {
    if n % 4 == 2 then 16 else if n % 4 == 3 then 4 else 1
  }

  /** The octets are the whole ones among the bits of the sextets. */
  predicate AreBits(d: seq<byte>, ids: seq<byte>) {
    |d| == 6 * |ids| / 8 && Value(d) == Value64(ids) / Excess(|ids|)
  }

  lemma {:induction false} DecodeIdsForm(ids: seq<byte>)
    requires AreIds(ids)
    ensures DecodeIds(ids).Success? <==> Closed(ids)
    ensures DecodeIds(ids).Success? ==> AreBits(DecodeIds(ids).value, ids[..Lead(ids)])
    decreases |ids|
  {
    hide Value64, Value, Group, Lead, AreBits;
    if |ids| <= 4 {
      OneGroupForm(ids);
    } else {
      var first, rest := ids[..4], ids[4..];
      DecodeIdsForm(rest);
      FirstGroupForm(ids);
      if AreSextets(first) {
        LeadAfterFour(ids);
        if DecodeIds(ids).Success? {
          var d, e := Group(first).value, DecodeIds(rest).value;
          assert DecodeIds(ids).value == d + e;
          FourSextets(first, d);
          assert ids[..Lead(ids)] == first + rest[..Lead(rest)];
          assert Lead(rest) % 4 != 1;
          BitsConcat(first, d, rest[..Lead(rest)], e);
        }
      }
    }
  }

  lemma OneGroupForm(ids: seq<byte>)
    requires AreIds(ids) && |ids| <= 4
    ensures DecodeIds(ids).Success? <==> Closed(ids)
    ensures DecodeIds(ids).Success? ==> AreBits(DecodeIds(ids).value, ids[..Lead(ids)])
  {
    hide Lead, AreBits, Closed, Group;
    if ids == [] {
      NoBits();
      assert ids[..Lead(ids)] == [];
      NothingCloses(ids);
    } else {
      GroupCloses(ids);
      if Group(ids).Success? {
        GroupBits(ids);
      }
    }
  }

  lemma NothingCloses(ids: seq<byte>)
    requires ids == []
    ensures Closed(ids)
  {
  }

  lemma GroupCloses(q: seq<byte>)
    requires AreIds(q) && 1 <= |q| <= 4
    ensures Group(q).Success? <==> Closed(q)
  {
    hide Lead, AllPads;
    var k := Lead(q);
    PadsFrom(q, k);
    if |q| == 1 {
      assert k <= 1;
    } else if |q| == 2 {
      assert k == 2 <==> q[0] != EQUAL && q[1] != EQUAL;
    } else if |q| == 3 {
      assert k >= 2 <==> q[0] != EQUAL && q[1] != EQUAL;
    } else {
      assert k >= 2 <==> q[0] != EQUAL && q[1] != EQUAL;
      assert k >= 3 <==> q[0] != EQUAL && q[1] != EQUAL && q[2] != EQUAL;
    }
  }

  lemma PadsFrom(q: seq<byte>, k: nat)
    requires k <= |q| <= 4
    ensures AllPads(q[k..]) <==> (k <= 0 < |q| ==> q[0] == EQUAL) && (k <= 1 < |q| ==> q[1] == EQUAL)
                                 && (k <= 2 < |q| ==> q[2] == EQUAL) && (k <= 3 < |q| ==> q[3] == EQUAL)
  {
    var pads := q[k..];
    assert forall i :: 0 <= i < |pads| ==> pads[i] == q[k + i];
    assert forall j :: k <= j < |q| ==> q[j] == pads[j - k];
  }

  lemma NoBits()
    ensures AreBits([], [])
  {
  }

  lemma GroupBits(q: seq<byte>)
    requires AreIds(q) && 1 <= |q| <= 4 && Group(q).Success?
    ensures AreBits(Group(q).value, q[..Lead(q)])
  {
    hide Value, Value64, Lead;
    var k, d := Lead(q), Group(q).value;
    var a: int, b: int := q[0], q[1];
    var ids := q[..k];
    if k == 2 {
      Sextets2(ids);
      Octets1(d);
      assert (a * 64 + b) / 16 == a * 4 + b / 16;
    } else if k == 3 {
      var c: int := q[2];
      Sextets3(ids);
      Octets2(d);
      assert (a * 4096 + b * 64 + c) / 4 == (a * 4 + b / 16) * 0x100 + (b % 16 * 16 + c / 4);
    } else {
      assert ids == q;
      FourSextets(q, d);
    }
  }

  /** Only a last group may have pads. */
  lemma FirstGroupForm(ids: seq<byte>)
    requires AreIds(ids) && |ids| > 4
    ensures !AreSextets(ids[..4]) ==> DecodeIds(ids).Failure? && !Closed(ids)
    ensures AreSextets(ids[..4]) ==>
              && Group(ids[..4]).Success?
              && (DecodeIds(ids).Success? <==> DecodeIds(ids[4..]).Success?)
              && (DecodeIds(ids).Success? ==> DecodeIds(ids).value == Group(ids[..4]).value + DecodeIds(ids[4..]).value)
  {
    hide Lead, AllPads;
    var q := ids[..4];
    FourInGroup(q);
    assert q[3] == ids[3];
    if !AreSextets(q) {
      var i :| 0 <= i < 4 && q[i] >= 64;
      assert ids[i] == EQUAL;
    }
  }

  lemma FourInGroup(q: seq<byte>)
    requires AreIds(q) && |q| == 4
    ensures AreSextets(q) <==> Group(q).Success? && q[3] != EQUAL
  {
  }

  lemma LeadAfterFour(ids: seq<byte>)
    requires |ids| > 4 && AreSextets(ids[..4])
    ensures Lead(ids) == 4 + Lead(ids[4..]) && ids[Lead(ids)..] == ids[4..][Lead(ids[4..])..]
    ensures Closed(ids) <==> Closed(ids[4..])
  {
    hide Lead;
    var k := 4 + Lead(ids[4..]);
    forall i | 0 <= i < k ensures ids[i] != EQUAL {
      assert if i < 4 then ids[i] == ids[..4][i] else ids[i] == ids[4..][i - 4];
    }
    LeadIs(ids, k);
    assert ids[k..] == ids[4..][k - 4..];
  }

  lemma LeadIs(ids: seq<byte>, k: nat)
    requires k <= |ids| && (forall i :: 0 <= i < k ==> ids[i] != EQUAL) && (k < |ids| ==> ids[k] == EQUAL)
    ensures Lead(ids) == k
  {
    hide Lead;
  }

  lemma FourSextets(q: seq<byte>, d: seq<byte>)
    requires AreSextets(q) && |q| == 4 && Group(q) == Success(d)
    ensures |d| == 3 && Value64(q) == Value(d)
  {
    hide Value, Value64;
    Sextets4(q);
    Octets3(d);
  }

  lemma BitsConcat(q: seq<byte>, d: seq<byte>, ids: seq<byte>, e: seq<byte>)
    requires |q| == 4 && |d| == 3 && Value64(q) == Value(d) && AreBits(e, ids) && |ids| % 4 != 1
    ensures AreBits(d + e, q + ids)
  {
    hide Value, Value64, Pow64, Pow256, Excess;
    Value64Concat(q, ids);
    ValueConcat(d, e);
    WidthsBack(|ids|);
    FourMore(|ids|);
    BitsStep(Value(d), Pow64(|ids|), Value64(ids), Pow256(|e|), Excess(|ids|));
  }

  lemma FourMore(n: nat)
    ensures 6 * (4 + n) / 8 == 3 + 6 * n / 8 && Excess(4 + n) == Excess(n)
  {
  }

  lemma {:induction false} WidthsBack(n: nat)
    requires n % 4 != 1
    ensures Pow64(n) == Pow256(6 * n / 8) * Excess(n)
  {
    if n < 4 {
      assert Pow64(2) == 4096 && Pow64(3) == 262144 by { assert Pow64(1) == 64; }
      assert Pow256(1) == 256 && Pow256(2) == 65536;
    } else {
      WidthsBack(n - 4);
      FourMore(n - 4);
      FourAndThree(n - 4, 6 * (n - 4) / 8);
      Associate(0x100_0000, Pow256(6 * (n - 4) / 8), Excess(n));
    }
  }

  lemma BitsStep(v: nat, p64: nat, x: nat, p: nat, s: nat)
    requires s > 0 && p64 == p * s
    ensures (v * p64 + x) / s == v * p + x / s
  {
    var q, r := x / s, x % s;
    assert x == s * q + r;
    Commute(s, q);
    Associate(v, p, s);
    Distribute(v * p, -q, s);
    QuotientUnique(v * p64 + x, v * p + q, r, s);
  }

  /** The characters that are no space, tab, carriage return or line feed. */
  ghost function Unblank(t: seq<byte>): (u: seq<byte>) {
    if t == [] then []
    else if t[0] == ' ' as int || t[0] == '\t' as int || t[0] == '\r' as int || t[0] == '\n' as int then Unblank(t[1..])
    else [t[0]] + Unblank(t[1..])
  }

  ghost predicate AllDigits(rules: Rules, u: seq<byte>) {
    forall i :: 0 <= i < |u| ==> IsBase64Digit(rules, u[i])
  }

  lemma {:induction false} SymbolsForm(rules: Rules, t: seq<byte>)
    ensures Symbols(rules, t).Success? <==> AllDigits(rules, Unblank(t))
    ensures Symbols(rules, t).Success? ==>
              && |Symbols(rules, t).value| == |Unblank(t)|
              && forall i :: 0 <= i < |Unblank(t)| ==> Symbols(rules, t).value[i] == Index(rules, Unblank(t)[i])
  {
    hide IsBase64Digit, Index, AllDigits;
    NoDigits(rules);
    if t != [] {
      SymbolsForm(rules, t[1..]);
      if !IsBlankSpace(t[0]) {
        assert Unblank(t) == [t[0]] + Unblank(t[1..]);
        DigitsBehind(rules, t[0], Unblank(t[1..]));
      }
    }
  }

  lemma NoDigits(rules: Rules)
    ensures AllDigits(rules, [])
  {
  }

  lemma DigitsBehind(rules: Rules, c: byte, v: seq<byte>)
    ensures var u := [c] + v;
            && (forall i :: 0 <= i < |v| ==> u[i + 1] == v[i])
            && (AllDigits(rules, u) <==> IsBase64Digit(rules, c) && AllDigits(rules, v))
  {
    hide IsBase64Digit;
    var u := [c] + v;
    assert u[0] == c && forall i :: 0 <= i < |v| ==> u[i + 1] == v[i];
  }

  lemma CharOfIndex(rules: Rules, c: byte)
    requires IsBase64Digit(rules, c)
    ensures Char(rules, Index(rules, c)) == c
  {
  }

  /** Sextets and pads in the alphabet. */
  ghost function Spelling(rules: Rules, ids: seq<byte>, pads: nat): (t: seq<byte>)
    requires AreSextets(ids)
    ensures |t| == |ids| + pads
  {
    seq(|ids|, i requires 0 <= i < |ids| => Symbol(rules, ids[i])) + seq(pads, _ => rules.pad)
  }

  lemma SpellingAt(rules: Rules, ids: seq<byte>, pads: nat, i: nat)
    requires AreSextets(ids) && i < |ids| + pads
    ensures Spelling(rules, ids, pads)[i] == Char(rules, if i < |ids| then ids[i] else EQUAL)
  {
    hide Symbol;
    if i < |ids| {
      CharIsSymbol(rules, ids[i]);
    }
  }

  /** These sextets, completed by so many pads, spell the text and stand for these octets. */
  ghost predicate Denotes(rules: Rules, t: seq<byte>, ids: seq<byte>, pads: nat, d: seq<byte>) {
    AreSextets(ids) && Unblank(t) == Spelling(rules, ids, pads) && Closes(|ids|, pads) && AreBits(d, ids)
  }

  /**
   * The decoder accepts exactly the texts that spell, blanks aside, some sextets with or without their
   * pads, and answers with the whole octets among their bits.
   */
  lemma DecodeForm(rules: Rules, t: seq<byte>, max: nat, d: seq<byte>)
    requires Faithful(rules)
    ensures Decode(rules, t, max) == Success(d) <==> |d| <= max && exists ids, pads :: Denotes(rules, t, ids, pads, d)
  {
    hide Decode, Denotes, Faithful;
    if Decode(rules, t, max) == Success(d) {
      DecodedDenotes(rules, t, max);
    }
    if |d| <= max {
      forall ids, pads | Denotes(rules, t, ids, pads, d) ensures Decode(rules, t, max) == Success(d) {
        DenotedDecodes(rules, t, max, ids, pads, d);
      }
    }
  }

  lemma DecodedDenotes(rules: Rules, t: seq<byte>, max: nat)
    requires Decode(rules, t, max).Success?
    ensures |Decode(rules, t, max).value| <= max
    ensures exists ids, pads :: Denotes(rules, t, ids, pads, Decode(rules, t, max).value)
  {
    hide Symbols, DecodeIds, AreBits, Spelling, Index, IsBase64Digit, Char, Unblank, Lead;
    SymbolsForm(rules, t);
    var all := Symbols(rules, t).value;
    DecodeIdsForm(all);
    var k, u := Lead(all), Unblank(t);
    var ids, pads := all[..k], |all| - k;
    forall i | 0 <= i < |u| ensures u[i] == Spelling(rules, ids, pads)[i] {
      CharOfIndex(rules, u[i]);
      SpellingAt(rules, ids, pads, i);
      if i >= k {
        assert all[k..][i - k] == EQUAL;
      }
    }
    assert u == Spelling(rules, ids, pads);
    assert Denotes(rules, t, ids, pads, Decode(rules, t, max).value);
  }

  lemma DenotedDecodes(rules: Rules, t: seq<byte>, max: nat, ids: seq<byte>, pads: nat, d: seq<byte>)
    requires Faithful(rules) && Denotes(rules, t, ids, pads, d) && |d| <= max
    ensures Decode(rules, t, max) == Success(d)
  {
    hide Symbols, DecodeIds, Value, Value64, Spelling, Index, IsBase64Digit, Char, Unblank, Lead, Faithful, Excess;
    var u := Unblank(t);
    forall i | 0 <= i < |u| ensures IsBase64Digit(rules, u[i]) && Index(rules, u[i]) == if i < |ids| then ids[i] else EQUAL {
      SpellingAt(rules, ids, pads, i);
      IndexOfChar(rules, if i < |ids| then ids[i] else EQUAL);
    }
    SymbolsForm(rules, t);
    var all := Symbols(rules, t).value;
    LeadIs(all, |ids|);
    assert all[..|ids|] == ids;
    assert AllPads(all[|ids|..]);
    DecodeIdsForm(all);
    ValueInjective(DecodeIds(all).value, d);
  }

  /** In particular a text that spells the sextets of some data decodes to that data. */
  lemma SextetsDecode(rules: Rules, t: seq<byte>, max: nat, d: seq<byte>, pads: nat)
    requires Faithful(rules) && |d| <= max && Closes(SextetCountOf(|d|), pads)
    requires |Unblank(t)| == SextetCountOf(|d|) + pads && forall k :: 0 <= k < |Unblank(t)| ==> Unblank(t)[k] == Written(rules, d, k)
    ensures Decode(rules, t, max) == Success(d)
  {
    hide Faithful, Unblank, Value, Value64, Core, Symbol, Slack, Excess, Decode;
    var ids, n := Core(d), SextetCountOf(|d|);
    Widths(|d|);
    CoreValue(d);
    SlackIsExcess(|d|);
    DivideOut(Value(d), Slack(|d|));
    forall i | 0 <= i < |Unblank(t)| ensures Unblank(t)[i] == Spelling(rules, ids, pads)[i] {
      if i < n {
        SextetOfCore(d, i);
      }
    }
    assert Unblank(t) == Spelling(rules, ids, pads);
    DenotedDecodes(rules, t, max, ids, pads, d);
  }

  lemma SlackIsExcess(n: nat)
    ensures Slack(n) == Excess(SextetCountOf(n)) && 6 * SextetCountOf(n) / 8 == n
  {
    var q := n / 3;
    if n % 3 == 0 {
      assert n == 3 * q && SextetCountOf(n) == 4 * q;
    } else if n % 3 == 1 {
      assert n == 3 * q + 1 && SextetCountOf(n) == 4 * q + 2;
    } else {
      assert n == 3 * q + 2 && SextetCountOf(n) == 4 * q + 3;
    }
  }

  lemma DivideOut(v: nat, s: nat)
    requires s > 0
    ensures v * s / s == v
  {
    QuotientUnique(v * s, v, 0, s);
  }

  /** What the encoder accepts: lines of whole groups, and a buffer for the text, its breaks and a zero. */
  lemma EncodeAccepts(rules: Rules, d: seq<byte>, size: nat)
    ensures EncodeText(rules, d, size).Success?
            <==> rules.line % 4 == 0
                 && var n := (|d| + 2) / 3 * 4; size >= n + (if rules.line == 0 then 0 else n / rules.line * 2) + 1
    ensures EncodeText(rules, d, size).Success? ==> EncodeText(rules, d, size).value == Encoded(rules, d)
    ensures EncodeText(rules, d, size).Failure? ==>
              EncodeText(rules, d, size).error == if rules.line % 4 != 0 then BadParams else BufferTooSmall
  {
    hide Encoded;
    PadsFill(|d|);
  }
}
