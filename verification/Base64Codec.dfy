/**
 * Base64 (RFC 4648 sections 4 and 5, RFC 2045 section 6.8) as in src/cryptoauthlib/lib/atca_helpers.c,
 * with a rule set that chooses the last two symbols, the pad and the line length, and the buffer size
 * src/ecc608.cpp computes for a certificate's text.
 */
module Base64Codec {
  import opened Bytes
  import opened Division

  /** The four octets of a rule set; a pad of 0 is no pad, a line of 0 is no line limit. */
  datatype Rules = Rules(c62: byte, c63: byte, pad: byte, line: byte)

  const DEFAULT_RULES := Rules(43, 47, 61, 64)
  const MIME_RULES := Rules(43, 47, 61, 76)
  const URLSAFE_RULES := Rules(45, 95, 0, 0)

  /** The index of the pad, B64_IS_EQUAL. */
  const EQUAL: byte := 64

  predicate IsAlpha(c: byte) { 65 <= c <= 90 || 97 <= c <= 122 }

  predicate IsBlankSpace(c: byte) { c == 10 || c == 13 || c == 9 || c == 32 }

  /** A signed char is compared with the rules' octets, so one of 0x80 and above never equals any. */
  predicate IsBase64Digit(rules: Rules, c: byte) {
    c < 0x80 && (IsDigit(c) || IsAlpha(c) || c == rules.c62 || c == rules.c63 || c == rules.pad)
  }

  /** base64Index, for the characters its callers have let through. */
  function Index(rules: Rules, c: byte): (id: byte)
    requires IsBase64Digit(rules, c)
    ensures id <= 64
  {
    if 65 <= c <= 90 then c - 65
    else if 97 <= c <= 122 then 26 + c - 97
    else if IsDigit(c) then 52 + c - 48
    else if c == rules.c62 then 62
    else if c == rules.c63 then 63
    else 64
  }

  /** base64Char. */
  function Char(rules: Rules, id: byte): byte
    requires id <= 64
  {
    if id < 26 then 65 + id
    else if id < 52 then 97 + id - 26
    else if id < 62 then 48 + id - 52
    else if id == 62 then rules.c62
    else if id == 63 then rules.c63
    else rules.pad
  }

  // ----- what the text is -----

  ghost predicate AreSextets(ids: seq<byte>) {
    forall i :: 0 <= i < |ids| ==> ids[i] < 64
  }

  ghost predicate AreIds(ids: seq<byte>) {
    forall i :: 0 <= i < |ids| ==> ids[i] <= 64
  }

  /** The six-bit groups of one, two or three octets, the last one filled with zeros. */
  ghost function Quad(g: seq<byte>): (ids: seq<byte>)
    requires 1 <= |g| <= 3
    ensures AreSextets(ids) && AreIds(ids) && |ids| == |g| + 1
  {
    if |g| == 1 then [g[0] / 4, g[0] % 4 * 16]
    else if |g| == 2 then [g[0] / 4, g[0] % 4 * 16 + g[1] / 16, g[1] % 16 * 4]
    else [g[0] / 4, g[0] % 4 * 16 + g[1] / 16, g[1] % 16 * 4 + g[2] / 64, g[2] % 64]
  }

  /** The six-bit groups of the data. */
  ghost function Core(d: seq<byte>): (ids: seq<byte>)
    ensures AreSextets(ids) && AreIds(ids)
    ensures |ids| == (4 * |d| + 2) / 3
  {
    if d == [] then [] else if |d| <= 3 then Quad(d) else Quad(d[..3]) + Core(d[3..])
  }

  /** How many pads complete the last group of four. */
  function Pads(n: nat): nat {
    (3 - n % 3) % 3
  }

  ghost function Repeat(c: byte, n: nat): (r: seq<byte>)
    ensures |r| == n
  {
    seq(n, _ => c)
  }

  ghost function Chars(rules: Rules, ids: seq<byte>): (t: seq<byte>)
    requires AreIds(ids)
    ensures |t| == |ids|
  {
    seq(|ids|, i requires 0 <= i < |ids| => Char(rules, ids[i]))
  }

  /** The text without line breaks. */
  ghost function Flat(rules: Rules, d: seq<byte>): (t: seq<byte>)
    ensures |t| == TextSize(|d|)
  {
    Chars(rules, Core(d)) + Repeat(rules.pad, Pads(|d|))
  }

  function TextSize(n: nat): (size: nat)
    ensures size % 4 == 0
  {
    (n / 3 + if n % 3 != 0 then 1 else 0) * 4
  }

  /** The text cut into lines of the given length; no break after the last one. */
  ghost function Lines(t: seq<byte>, line: nat): seq<byte> {
    if line == 0 || |t| <= line then t else t[..line] + [CR, LF] + Lines(t[line..], line)
  }

  /** Without the trailing zeros (but never shorter than one character). */
  ghost function Strip(t: seq<byte>): (r: seq<byte>)
    ensures |r| <= |t|
  {
    if |t| > 1 && t[|t| - 1] == 0 then Strip(t[..|t| - 1]) else t
  }

  ghost function Encoded(rules: Rules, d: seq<byte>): seq<byte> {
    Strip(Lines(Flat(rules, d), rules.line))
  }

  /** The buffer size atcab_base64encode_ insists on: the text, its line breaks, a terminating zero. */
  function Bound(n: nat, line: nat): nat {
    TextSize(n) + (if line == 0 then 0 else TextSize(n) / line * 2) + 1
  }

  /** atcab_base64encode_. */
  ghost function EncodeText(rules: Rules, d: seq<byte>, size: nat): Result<seq<byte>> {
    if rules.line % 4 != 0 then Failure(BadParams)
    else if size < Bound(|d|, rules.line) then Failure(BufferTooSmall)
    else Success(Encoded(rules, d))
  }

  // ----- what decoding is -----

  /** atcab_base64decode_block: a failed block, or the octets it appends. */
  function Block(a: byte, b: byte, c: byte, d: byte): Result<seq<byte>>
    requires a <= 64 && b <= 64 && c <= 64 && d <= 64
  {
    if a == EQUAL || b == EQUAL || (c == EQUAL && d != EQUAL) then Failure(BadParams)
    else if c == EQUAL then Success([a * 4 + b / 16])
    else if d == EQUAL then Success([a * 4 + b / 16, b % 16 * 16 + c / 4])
    else Success([a * 4 + b / 16, b % 16 * 16 + c / 4, c % 4 * 64 + d])
  }

  /** One block; the last block of a text may lack its pads. */
  ghost function Group(q: seq<byte>): Result<seq<byte>>
    requires 1 <= |q| <= 4 && AreIds(q)
  {
    if |q| == 1 then Failure(BadParams)
    else Block(q[0], q[1], if |q| > 2 then q[2] else EQUAL, if |q| > 3 then q[3] else EQUAL)
  }

  /** Block by block; a padded block must be the last. */
  ghost function DecodeIds(ids: seq<byte>): (d: Result<seq<byte>>)
    requires AreIds(ids)
    ensures d.Failure? ==> d == Failure(BadParams)
  {
    if ids == [] then Success([])
    else if |ids| <= 4 then Group(ids)
    else
      var octets :- Group(ids[..4]);
      if ids[3] == EQUAL then Failure(BadParams)
      else
        var rest :- DecodeIds(ids[4..]);
        Success(octets + rest)
  }

  /** The indices of the characters that are not blank. */
  ghost function Symbols(rules: Rules, t: seq<byte>): (ids: Result<seq<byte>>)
    ensures ids.Success? ==> AreIds(ids.value)
    ensures ids.Failure? ==> ids == Failure(BadParams)
  {
    if t == [] then Success([])
    else if IsBlankSpace(t[0]) then Symbols(rules, t[1..])
    else if !IsBase64Digit(rules, t[0]) then Failure(BadParams)
    else
      var rest :- Symbols(rules, t[1..]);
      Success([Index(rules, t[0])] + rest)
  }

  ghost function Fit(d: seq<byte>, max: nat): Result<seq<byte>> {
    if |d| <= max then Success(d) else Failure(BadParams)
  }

  ghost function Decode(rules: Rules, t: seq<byte>, max: nat): Result<seq<byte>> {
    var ids :- Symbols(rules, t);
    var d :- DecodeIds(ids);
    Fit(d, max)
  }

  // ----- the round trip -----

  /** Neither a letter nor a digit, and not negative as a signed char. */
  predicate IsSymbol(c: byte) {
    c < 0x80 && !IsDigit(c) && !IsAlpha(c)
  }

  /**
   * The rule sets that lose nothing: two distinct visible symbols, a pad that is none of the 64
   * characters (it may be zero or even blank), whole groups on every line.
   */
  predicate Faithful(rules: Rules) {
    && IsSymbol(rules.c62) && !IsBlankSpace(rules.c62) && rules.c62 != 0
    && IsSymbol(rules.c63) && !IsBlankSpace(rules.c63) && rules.c63 != 0
    && rules.c62 != rules.c63
    && IsSymbol(rules.pad) && rules.pad != rules.c62 && rules.pad != rules.c63
    && rules.line % 4 == 0
  }

  /** The three shipped rule sets (lines 43-45). */
  lemma ShippedRules()
    ensures Faithful(DEFAULT_RULES) && Faithful(MIME_RULES) && Faithful(URLSAFE_RULES)
  {
  }

  lemma IndexOfChar(rules: Rules, id: byte)
    requires Faithful(rules) && id <= 64
    ensures var c := Char(rules, id);
            && (id < 64 ==> !IsBlankSpace(c) && c != 0)
            && IsBase64Digit(rules, c) && Index(rules, c) == id
  {
  }

  /** Succeeds with exactly these octets. */
  ghost predicate Gives(r: Result<seq<byte>>, v: seq<byte>) {
    r.Success? && r.value == v
  }

  lemma QuadDecodes(g: seq<byte>)
    requires 1 <= |g| <= 3
    ensures Gives(Group(Quad(g)), g)
    ensures Gives(Group(Quad(g) + Repeat(EQUAL, 3 - |g|)), g)
  {
    var ids := Quad(g) + Repeat(EQUAL, 3 - |g|);
    assert ids[..|g| + 1] == Quad(g);
    Sextets(g[0], if |g| > 1 then g[1] else 0, if |g| > 2 then g[2] else 0);
  }

  lemma Sextets(a: byte, b: byte, c: byte)
    ensures a / 4 * 4 + a % 4 * 16 / 16 == a
    ensures a / 4 * 4 + (a % 4 * 16 + b / 16) / 16 == a
    ensures (a % 4 * 16 + b / 16) % 16 * 16 + b % 16 * 4 / 4 == b
    ensures (a % 4 * 16 + b / 16) % 16 * 16 + (b % 16 * 4 + c / 64) / 4 == b
    ensures (b % 16 * 4 + c / 64) % 4 * 64 + c % 64 == c
  {
  }

  lemma {:induction false} CoreDecodes(d: seq<byte>)
    ensures Gives(DecodeIds(Core(d)), d)
    ensures Gives(DecodeIds(Core(d) + Repeat(EQUAL, Pads(|d|))), d)
  {
    hide Group, Quad, DecodeIds, Core;
    if |d| > 3 {
      CoreDecodes(d[3..]);
      assert Core(d) + [] == Core(d) && Core(d[3..]) + [] == Core(d[3..]);
      FullBlock(d, []);
      FullBlock(d, Repeat(EQUAL, Pads(|d|)));
    } else {
      ShortDecodes(d);
    }
  }

  lemma ShortDecodes(d: seq<byte>)
    requires |d| <= 3
    ensures Gives(DecodeIds(Core(d)), d)
    ensures Gives(DecodeIds(Core(d) + Repeat(EQUAL, Pads(|d|))), d)
  {
    hide DecodeIds, Core, Pads, Repeat;
    CoreOfFew(d);
    if d == [] {
      NoPads();
      assert [] + Repeat(EQUAL, Pads(0)) == [];
      EmptyDecodes(Core(d));
      EmptyDecodes(Core(d) + Repeat(EQUAL, Pads(0)));
    } else {
      OneGroupDecodes(d);
    }
  }

  lemma OneGroupDecodes(g: seq<byte>)
    requires 1 <= |g| <= 3
    ensures Gives(DecodeIds(Quad(g)), g)
    ensures AreIds(Quad(g) + Repeat(EQUAL, Pads(|g|))) && Gives(DecodeIds(Quad(g) + Repeat(EQUAL, Pads(|g|))), g)
  {
    hide Group, Quad, DecodeIds, Pads, Repeat;
    FewPads(|g|, EQUAL);
    QuadDecodes(g);
    OneGroup(Quad(g));
    OneGroup(Quad(g) + Repeat(EQUAL, 3 - |g|));
  }

  lemma CoreOfFew(d: seq<byte>)
    requires |d| <= 3
    ensures Core(d) == if d == [] then [] else Quad(d)
  {
  }

  lemma NoPads()
    ensures Repeat(EQUAL, Pads(0)) == []
  {
  }

  lemma FewPads(n: nat, c: byte)
    requires 1 <= n <= 3
    ensures Pads(n) == 3 - n && |Repeat(c, 3 - n)| == 3 - n
    ensures c <= 64 ==> AreIds(Repeat(c, 3 - n))
  {
  }

  lemma EmptyDecodes(ids: seq<byte>)
    requires ids == []
    ensures Gives(DecodeIds(ids), [])
  {
  }

  lemma OneGroup(ids: seq<byte>)
    requires 1 <= |ids| <= 4 && AreIds(ids)
    ensures DecodeIds(ids) == Group(ids)
  {
  }

  lemma FullBlock(d: seq<byte>, pads: seq<byte>)
    requires |d| > 3 && AreIds(pads) && Gives(DecodeIds(Core(d[3..]) + pads), d[3..])
    ensures Gives(DecodeIds(Core(d) + pads), d)
  {
    hide Group, Quad, DecodeIds;
    QuadDecodes(d[..3]);
    BlockThenRest(Quad(d[..3]), Core(d[3..]) + pads);
    Regroup(Quad(d[..3]), Core(d[3..]), pads);
    assert d == d[..3] + d[3..];
    assert Quad(d[..3]) + Repeat(EQUAL, 0) == Quad(d[..3]);
  }

  lemma BlockThenRest(q: seq<byte>, rest: seq<byte>)
    requires |q| == 4 && AreSextets(q) && AreIds(q) && AreIds(rest) && rest != []
    requires Group(q).Success? && DecodeIds(rest).Success?
    ensures AreIds(q + rest) && Gives(DecodeIds(q + rest), Group(q).value + DecodeIds(rest).value)
  {
    hide Group;
    assert (q + rest)[..4] == q && (q + rest)[4..] == rest;
  }

  lemma {:induction false} SymbolsConcat(rules: Rules, a: seq<byte>, b: seq<byte>)
    requires Symbols(rules, a).Success? && Symbols(rules, b).Success?
    ensures Gives(Symbols(rules, a + b), Symbols(rules, a).value + Symbols(rules, b).value)
  {
    hide IsBlankSpace, IsBase64Digit, Index;
    if a == [] {
      assert a + b == b;
    } else {
      assert (a + b)[1..] == a[1..] + b;
      SymbolsConcat(rules, a[1..], b);
    }
  }

  lemma SymbolsOfBreak(rules: Rules)
    ensures Gives(Symbols(rules, [CR, LF]), [])
  {
    var lf: seq<byte> := [LF];
    assert [CR, LF][1..] == lf;
    assert Gives(Symbols(rules, lf), []);
  }

  lemma {:induction false} SymbolsOfLines(rules: Rules, t: seq<byte>, line: nat)
    requires Symbols(rules, t).Success?
    ensures Gives(Symbols(rules, Lines(t, line)), Symbols(rules, t).value)
    decreases |t|
  {
    hide Symbols;
    if line != 0 && |t| > line {
      var head, rest := t[..line], t[line..];
      assert t == head + rest;
      SymbolsSplit(rules, head, rest);
      SymbolsOfLines(rules, rest, line);
      SymbolsOfBreak(rules);
      SymbolsConcat(rules, head, [CR, LF]);
      SymbolsConcat(rules, head + [CR, LF], Lines(rest, line));
      SymbolsConcat(rules, head, rest);
    }
  }

  lemma {:induction false} SymbolsSplit(rules: Rules, a: seq<byte>, b: seq<byte>)
    requires Symbols(rules, a + b).Success?
    ensures Symbols(rules, a).Success? && Symbols(rules, b).Success?
  {
    hide IsBlankSpace, IsBase64Digit, Index;
    if a == [] {
      assert a + b == b;
    } else {
      assert (a + b)[1..] == a[1..] + b;
      SymbolsSplit(rules, a[1..], b);
    }
  }

  lemma {:induction false} SymbolsOfChars(rules: Rules, ids: seq<byte>)
    requires Faithful(rules) && AreSextets(ids) && AreIds(ids)
    ensures Gives(Symbols(rules, Chars(rules, ids)), ids)
  {
    hide Faithful, IsBlankSpace, IsBase64Digit, Index, Char;
    if ids != [] {
      IndexOfChar(rules, ids[0]);
      SymbolsOfChars(rules, ids[1..]);
      assert Chars(rules, ids)[1..] == Chars(rules, ids[1..]);
    }
  }

  lemma {:induction false} SymbolsOfPads(rules: Rules, n: nat)
    requires Faithful(rules)
    ensures Gives(Symbols(rules, Repeat(rules.pad, n)), if IsBlankSpace(rules.pad) then [] else Repeat(EQUAL, n))
  {
    if n > 0 {
      IndexOfChar(rules, EQUAL);
      SymbolsOfPads(rules, n - 1);
      assert Repeat(rules.pad, n)[1..] == Repeat(rules.pad, n - 1);
      assert Repeat(EQUAL, n) == [EQUAL] + Repeat(EQUAL, n - 1);
    }
  }

  /** The last of the lines that hold m characters has begun and has room for p more. */
  predicate RoomOnLine(m: nat, p: nat, line: nat) {
    line > 0 ==> m % line != 0 && m % line + p <= line
  }

  /** Appending to a text that ends inside a line. */
  lemma {:induction false} LinesExtend(t: seq<byte>, z: seq<byte>, line: nat)
    requires RoomOnLine(|t|, |z|, line)
    ensures Lines(t + z, line) == Lines(t, line) + z
    decreases |t|
  {
    hide RoomOnLine;
    if line > 0 {
      RoomBefore(|t|, |z|, line);
    }
    if line > 0 && |t| >= line {
      LinesExtend(t[line..], z, line);
      assert (t + z)[..line] == t[..line] && (t + z)[line..] == t[line..] + z;
    }
  }

  lemma RoomBefore(m: nat, p: nat, line: nat)
    requires RoomOnLine(m, p, line) && line > 0
    ensures if m < line then m + p <= line else m > line && RoomOnLine(m - line, p, line)
  {
    if m >= line {
      DropLine(m, line);
    } else {
      QuotientUnique(m, 0, m, line);
    }
  }

  lemma DropLine(n: nat, line: nat)
    requires line > 0 && n >= line
    ensures (n - line) % line == n % line && (n - line) / line == n / line - 1
  {
    ModPlus(n - line, line);
  }

  lemma {:induction false} LastOfLines(t: seq<byte>, line: nat)
    requires t != []
    ensures var l := Lines(t, line); |l| >= |t| && l[|l| - 1] == t[|t| - 1]
    decreases |t|
  {
    if line != 0 && |t| > line {
      LastOfLines(t[line..], line);
    }
  }

  lemma {:induction false} StripZeros(t: seq<byte>, n: nat)
    requires t != [] && t[|t| - 1] != 0
    ensures Strip(t + Repeat(0, n)) == t
    decreases n
  {
    var s := t + Repeat(0, n);
    if n == 0 {
      assert s == t;
    } else {
      StripZeros(t, n - 1);
      assert s[..|s| - 1] == t + Repeat(0, n - 1);
    }
  }

  lemma SextetCount(n: nat)
    ensures Pads(n) <= 2 && (Pads(n) > 0 ==> (4 * n + 2) / 3 % 4 + Pads(n) == 4)
  {
    var q, r := n / 3, n % 3;
    assert (4 * n + 2) / 3 == 4 * q + (4 * r + 2) / 3;
    ModFour((4 * n + 2) / 3, q, (4 * r + 2) / 3);
  }

  lemma InsideLine(m: nat, p: nat, line: nat)
    requires line > 0 && line % 4 == 0 && 0 < m % 4 && m % 4 + p <= 4
    ensures RoomOnLine(m, p, line)
  {
    ModOfMod(m, line);
    RoomInLine(m % line, p, line);
  }

  lemma ModOfMod(m: nat, line: nat)
    requires line > 0 && line % 4 == 0
    ensures m % line % 4 == m % 4
  {
    var k, r := DivMod(m, line);
    Fours(m, line, line / 4, k, r);
  }

  lemma DivMod(m: nat, line: nat) returns (k: nat, r: nat)
    requires line > 0
    ensures r == m % line && m == line * k + r
  {
    k, r := m / line, m % line;
  }

  lemma Fours(m: nat, line: nat, h: nat, k: nat, r: nat)
    requires line == 4 * h && m == line * k + r
    ensures m % 4 == r % 4
  {
    Associate(4, h, k);
    ModFour(m, h * k, r);
  }

  lemma RoomInLine(r: nat, p: nat, line: nat)
    requires r < line && line % 4 == 0 && 0 < r % 4 && r % 4 + p <= 4
    ensures r != 0 && r + p <= line
  {
  }

  /** With a pad, the whole padded text in lines; without one, the unpadded text in lines. */
  lemma WhatIsEncoded(rules: Rules, d: seq<byte>)
    requires Faithful(rules)
    ensures Encoded(rules, d) == Lines(if rules.pad == 0 then Chars(rules, Core(d)) else Flat(rules, d), rules.line)
  {
    hide Faithful, Core, Char, Lines, Strip;
    var core, n := Chars(rules, Core(d)), Pads(|d|);
    if d == [] {
      assert Flat(rules, d) == core == [] by { CoreOfFew(d); }
      StripEmpty(rules.line);
    } else {
      LastIsVisible(rules, d);
      if rules.pad != 0 || n == 0 {
        if n == 0 {
          assert Flat(rules, d) == core;
        }
        StripNothing(Flat(rules, d), rules.line);
      } else {
        StripPads(rules, d, core);
      }
    }
  }

  lemma StripEmpty(line: nat)
    ensures Strip(Lines([], line)) == Lines([], line)
  {
  }

  lemma StripNothing(t: seq<byte>, line: nat)
    requires t != [] && t[|t| - 1] != 0
    ensures Strip(Lines(t, line)) == Lines(t, line)
  {
    LastOfLines(t, line);
  }

  lemma FaithfulLine(rules: Rules)
    requires Faithful(rules)
    ensures rules.line % 4 == 0
  {
  }

  lemma StripPads(rules: Rules, d: seq<byte>, core: seq<byte>)
    requires Faithful(rules)
    requires rules.pad == 0 && Pads(|d|) > 0 && core == Chars(rules, Core(d)) && core != [] && core[|core| - 1] != 0
    ensures Encoded(rules, d) == Lines(core, rules.line)
  {
    hide Faithful, Core, Chars, Lines, Strip, Pads, Repeat, RoomOnLine, TextSize;
    FaithfulLine(rules);
    RoomForPads(|d|, rules.line);
    StripZeroPads(core, Pads(|d|), rules.line);
  }

  lemma StripZeroPads(t: seq<byte>, n: nat, line: nat)
    requires t != [] && t[|t| - 1] != 0 && RoomOnLine(|t|, n, line)
    ensures Strip(Lines(t + Repeat(0, n), line)) == Lines(t, line)
  {
    hide Lines, Strip, Repeat, RoomOnLine;
    LinesExtend(t, Repeat(0, n), line);
    LastOfLines(t, line);
    StripZeros(Lines(t, line), n);
  }

  lemma RoomForPads(n: nat, line: nat)
    requires line % 4 == 0 && Pads(n) > 0
    ensures RoomOnLine((4 * n + 2) / 3, Pads(n), line)
  {
    SextetCount(n);
    if line > 0 {
      InsideLine((4 * n + 2) / 3, Pads(n), line);
    }
  }

  lemma LastIsVisible(rules: Rules, d: seq<byte>)
    requires Faithful(rules) && d != []
    ensures var core := Chars(rules, Core(d)); core != [] && core[|core| - 1] != 0
  {
    hide Faithful, Core, Char;
    IndexOfChar(rules, Core(d)[|Core(d)| - 1]);
  }

  /**
   * Decoding the encoded text gives back the data, for every input and every faithful rule set; it
   * fails only when the caller's buffer is smaller than the data.
   */
  lemma RoundTrip(rules: Rules, d: seq<byte>, max: nat)
    requires Faithful(rules)
    ensures Decode(rules, Encoded(rules, d), max) == Fit(d, max)
  {
    hide Faithful, Core, Lines, Strip, Symbols, DecodeIds, IsBlankSpace, Chars, Repeat;
    var core, pads := Chars(rules, Core(d)), Repeat(rules.pad, Pads(|d|));
    WhatIsEncoded(rules, d);
    SymbolsOfChars(rules, Core(d));
    SymbolsOfPads(rules, Pads(|d|));
    SymbolsConcat(rules, core, pads);
    SymbolsOfLines(rules, if rules.pad == 0 then core else Flat(rules, d), rules.line);
    CoreDecodes(d);
    assert Core(d) + [] == Core(d);
  }

  /** Data whose text does not decode back, for a rule set that is not faithful. */
  ghost function Lost(rules: Rules): seq<byte> {
    if !IsSymbol(rules.c62) || IsBlankSpace(rules.c62) || rules.c62 == 0 then [0xFB, 0xEF, 0xBE]
    else if !IsSymbol(rules.c63) || IsBlankSpace(rules.c63) || rules.c63 == 0 || rules.c62 == rules.c63 then [0xFF, 0xFF, 0xFF]
    else [0]
  }

  /** Encoding into a buffer of the insisted-on size and decoding again gives back the data. */
  ghost predicate Survives(rules: Rules, d: seq<byte>) {
    var text := EncodeText(rules, d, Bound(|d|, rules.line));
    text.Success? && Decode(rules, text.value, |d|) == Success(d)
  }

  /** The round trip holds for all data exactly when the rule set is faithful. */
  lemma FaithfulIff(rules: Rules)
    ensures Faithful(rules) <==> forall d :: Survives(rules, d)
  {
    hide Encoded, Decode, Bound;
    if Faithful(rules) {
      forall d ensures Survives(rules, d) {
        RoundTrip(rules, d, |d|);
      }
    } else if rules.line % 4 == 0 {
      LostIsLost(rules);
      assert !Survives(rules, Lost(rules));
    } else {
      assert !Survives(rules, []);
    }
  }

  /** A rule set that is not faithful loses some data. */
  lemma LostIsLost(rules: Rules)
    requires !Faithful(rules) && rules.line % 4 == 0
    ensures Decode(rules, Encoded(rules, Lost(rules)), |Lost(rules)|) != Success(Lost(rules))
  {
    hide Decode, Encoded, IsSymbol, IsBlankSpace;
    if !IsSymbol(rules.c62) || IsBlankSpace(rules.c62) || rules.c62 == 0 {
      BadSymbol(rules, 62, Lost(rules));
    } else if !IsSymbol(rules.c63) || IsBlankSpace(rules.c63) || rules.c63 == 0 || rules.c62 == rules.c63 {
      BadSymbol(rules, 63, Lost(rules));
    } else {
      PadIsVisible(rules);
      BadPad(rules);
    }
  }

  lemma PadIsVisible(rules: Rules)
    requires !IsSymbol(rules.pad) || rules.pad == rules.c62 || rules.pad == rules.c63
    requires !IsBlankSpace(rules.c62) && rules.c62 != 0 && !IsBlankSpace(rules.c63) && rules.c63 != 0
    ensures rules.pad != 0 && !IsBlankSpace(rules.pad)
  {
  }

  lemma BadSymbol(rules: Rules, id: byte, d: seq<byte>)
    requires rules.line % 4 == 0
    requires (id == 62 && d == [0xFB, 0xEF, 0xBE]) || (id == 63 && d == [0xFF, 0xFF, 0xFF])
    requires var c := Char(rules, id); !IsSymbol(c) || IsBlankSpace(c) || c == 0 || (id == 63 && c == rules.c62)
    ensures Decode(rules, Encoded(rules, d), |d|) != Success(d)
  {
    hide Decode, IsSymbol, IsBlankSpace;
    var c := Char(rules, id);
    var t := Repeat(c, 4);
    SameFlat(rules, id, d);
    assert Lines(t, rules.line) == t;
    if c == 0 {
      assert t == [0] + Repeat(0, 3);
      ZerosStrip(4);
      TooShort(rules, Encoded(rules, d), d);
    } else if c >= 0x80 {
      assert Encoded(rules, d) == t;
      NegativeIsForeign(rules, t, 0);
    } else {
      assert Encoded(rules, d) == t;
      SameSymbols(rules, c, 4);
      OtherSymbol(rules, id, d, t);
    }
  }

  /** A character that is negative as a signed char is refused. */
  lemma {:induction false} NegativeIsForeign(rules: Rules, t: seq<byte>, k: nat)
    requires k < |t| && t[k] >= 0x80
    ensures forall n: nat :: Decode(rules, t, n).Failure?
    ensures Symbols(rules, t).Failure?
  {
    if k > 0 {
      NegativeIsForeign(rules, t[1..], k - 1);
    }
  }

  lemma SameFlat(rules: Rules, id: byte, d: seq<byte>)
    requires (id == 62 && d == [0xFB, 0xEF, 0xBE]) || (id == 63 && d == [0xFF, 0xFF, 0xFF])
    ensures Flat(rules, d) == Repeat(Char(rules, id), 4)
  {
    hide Char;
    assert d[3..] == [];
    assert Core(d) == [id, id, id, id];
  }

  lemma {:induction false} ZerosStrip(n: nat)
    requires n > 0
    ensures Strip(Repeat(0, n)) == [0]
  {
    if n > 1 {
      ZerosStrip(n - 1);
      assert Repeat(0, n)[..n - 1] == Repeat(0, n - 1);
    }
  }

  lemma OtherSymbol(rules: Rules, id: byte, d: seq<byte>, t: seq<byte>)
    requires (id == 62 && d == [0xFB, 0xEF, 0xBE]) || (id == 63 && d == [0xFF, 0xFF, 0xFF])
    requires var c := Char(rules, id);
             && (!IsSymbol(c) || IsBlankSpace(c) || (id == 63 && c == rules.c62))
             && IsBase64Digit(rules, c)
             && Gives(Symbols(rules, t), if IsBlankSpace(c) then [] else Repeat(Index(rules, c), 4))
    ensures Decode(rules, t, |d|) != Success(d)
  {
    hide Symbols;
    var ids := Symbols(rules, t).value;
    if |ids| == 4 {
      var x := ids[0];
      assert x != id && x <= 63;
      var octets := DecodeIds(ids).value;
      assert ids[4..] == [];
      assert octets[0] == x * 4 + x / 16;
    }
  }

  /** One character decodes to nothing or not at all. */
  lemma TooShort(rules: Rules, t: seq<byte>, d: seq<byte>)
    requires |t| == 1 && d != []
    ensures Decode(rules, t, |d|) != Success(d)
  {
    assert t[1..] == [] && Gives(Symbols(rules, t[1..]), []);
    var ids := Symbols(rules, t);
    assert ids.Success? ==> |ids.value| <= 1;
    assert ids.Success? ==> DecodeIds(ids.value).Failure? || DecodeIds(ids.value).value == [];
  }

  lemma {:induction false} SameSymbols(rules: Rules, c: byte, n: nat)
    requires IsBase64Digit(rules, c)
    ensures Gives(Symbols(rules, Repeat(c, n)), if IsBlankSpace(c) then [] else Repeat(Index(rules, c), n))
  {
    hide Index, IsBase64Digit, IsBlankSpace;
    if n > 0 {
      assert Repeat(c, n)[1..] == Repeat(c, n - 1);
      SameSymbols(rules, c, n - 1);
    }
  }

  lemma BadPad(rules: Rules)
    requires rules.line % 4 == 0
    requires !IsSymbol(rules.pad) || rules.pad == rules.c62 || rules.pad == rules.c63
    requires rules.pad != 0 && !IsBlankSpace(rules.pad)
    ensures Decode(rules, Encoded(rules, [0]), 1) != Success([0])
  {
    hide Decode;
    var p, a: byte := rules.pad, 65;
    var t := Repeat(a, 2) + Repeat(p, 2);
    assert Flat(rules, [0]) == t by {
      assert Core([0]) == [0, 0];
    }
    assert Encoded(rules, [0]) == t;
    if p >= 0x80 {
      NegativeIsForeign(rules, t, 2);
    } else {
      SameSymbols(rules, a, 2);
      SameSymbols(rules, p, 2);
      SymbolsConcat(rules, Repeat(a, 2), Repeat(p, 2));
      assert Index(rules, a) == 0;
      assert Index(rules, p) < 64;
      BadPadIds(rules, t);
    }
  }

  lemma BadPadIds(rules: Rules, t: seq<byte>)
    requires IsBase64Digit(rules, rules.pad) && Index(rules, rules.pad) < 64
    requires Gives(Symbols(rules, t), Repeat(0, 2) + Repeat(Index(rules, rules.pad), 2))
    ensures Decode(rules, t, 1) != Success([0])
  {
    hide Symbols;
    var ids := Repeat(0, 2) + Repeat(Index(rules, rules.pad), 2);
    assert ids[4..] == [];
    var d := DecodeIds(ids);
    assert |d.value| == 3;
  }

  // ----- lines and sizes -----

  lemma {:induction false} LinesSize(t: seq<byte>, line: nat)
    ensures |Lines(t, line)| == |t| + if line == 0 || t == [] then 0 else (|t| - 1) / line * 2
    decreases |t|
  {
    if line > 0 && |t| > line {
      LinesSize(t[line..], line);
      ModPlus(|t| - 1 - line, line);
    } else if line > 0 && t != [] {
      QuotientUnique(|t| - 1, 0, |t| - 1, line);
    }
  }

  /** The line a position of the text is on, and its place there; a full line takes two places more. */
  function Row(i: nat, line: nat): nat { i / (line + 2) }

  function Column(i: nat, line: nat): (j: nat)
    ensures j < line + 2
  {
    i % (line + 2)
  }

  /** The character at a place that is not a line break. */
  function Place(i: nat, line: nat): nat { Row(i, line) * line + Column(i, line) }

  /** Every line but the last has exactly the rule's length and is followed by CR LF. */
  lemma {:induction false} LinesAt(t: seq<byte>, line: nat, i: nat)
    requires line > 0 && i < |Lines(t, line)|
    ensures var j, at := Column(i, line), Place(i, line);
            && (j < line ==> at < |t| && Lines(t, line)[i] == t[at])
            && (j == line ==> Lines(t, line)[i] == CR)
            && (j == line + 1 ==> Lines(t, line)[i] == LF)
    decreases |t|
  {
    hide Lines, Row, Column, Place;
    FirstLine(t, line, i);
    if |t| <= line || i < line + 2 {
      FirstRow(i, line);
    } else {
      LinesAt(t[line..], line, i - line - 2);
      NextRow(i, line);
    }
  }

  lemma FirstRow(i: nat, line: nat)
    requires i < line + 2
    ensures Place(i, line) == Column(i, line) == i
  {
    QuotientUnique(i, 0, i, line + 2);
  }

  lemma NextRow(i: nat, line: nat)
    requires i >= line + 2
    ensures Place(i, line) == Place(i - line - 2, line) + line && Column(i, line) == Column(i - line - 2, line)
  {
    ModPlus(i - line - 2, line + 2);
  }

  lemma FirstLine(t: seq<byte>, line: nat, i: nat)
    requires line > 0 && i < |Lines(t, line)|
    ensures |t| <= line ==> Lines(t, line) == t
    ensures |t| > line && i < line ==> Lines(t, line)[i] == t[i]
    ensures |t| > line && i == line ==> Lines(t, line)[i] == CR
    ensures |t| > line && i == line + 1 ==> Lines(t, line)[i] == LF
    ensures |t| > line && i >= line + 2 ==>
              i - line - 2 < |Lines(t[line..], line)| && Lines(t, line)[i] == Lines(t[line..], line)[i - line - 2]
  {
  }

  lemma QuotientMonotone(a: nat, b: nat, line: nat)
    requires line > 0 && a <= b
    ensures a / line <= b / line
    decreases b
  {
    if b - a >= line {
      ModPlus(b - line, line);
      QuotientMonotone(a, b - line, line);
    } else {
      var q, r, p, s := a / line, a % line, b / line, b % line;
      Distribute(q, p, line);
      if q > p {
        AtLeastOnce(q - p, line);
      }
    }
  }

  /** The text in lines, and with it the stripped text, leaves room for the terminating zero. */
  lemma TextFits(t: seq<byte>, n: nat, line: nat)
    requires |t| <= TextSize(n)
    ensures |Lines(t, line)| < Bound(n, line)
  {
    hide Lines, TextSize;
    LinesSize(t, line);
    if line > 0 && t != [] {
      QuotientMonotone(|t| - 1, TextSize(n), line);
    }
  }

  /** calculateBase64EncodedCertificateSize (src/ecc608.cpp). */
  function CalculatedSize(n: nat): nat {
    (n / 3 + if n % 3 != 0 then 1 else 0) * 4 + TextSize(n) / DEFAULT_RULES.line * 2 + 1
  }

  /** A buffer of the calculated size is never too small for a certificate's text, nor is a larger one. */
  lemma CalculatedIsEnough(certificate: seq<byte>, size: nat)
    requires size >= CalculatedSize(|certificate|)
    ensures EncodeText(DEFAULT_RULES, certificate, size) == Success(Encoded(DEFAULT_RULES, certificate))
    ensures |Encoded(DEFAULT_RULES, certificate)| < CalculatedSize(|certificate|)
    ensures Decode(DEFAULT_RULES, Encoded(DEFAULT_RULES, certificate), |certificate|) == Success(certificate)
  {
    hide Encoded, Decode;
    ShippedRules();
    RoundTrip(DEFAULT_RULES, certificate, |certificate|);
    EncodedFits(DEFAULT_RULES, certificate);
  }

  lemma EncodedFits(rules: Rules, d: seq<byte>)
    ensures |Encoded(rules, d)| < Bound(|d|, rules.line)
  {
    hide Bound, Lines, Strip, TextSize;
    TextFits(Flat(rules, d), |d|, rules.line);
  }

  // ----- encoding group by group -----

  lemma {:induction false} CoreConcat(a: seq<byte>, b: seq<byte>)
    requires |a| % 3 == 0
    ensures Core(a + b) == Core(a) + Core(b)
  {
    hide Quad;
    if a == [] {
      assert a + b == b;
    } else if b == [] {
      assert a + b == a;
    } else {
      CoreConcat(a[3..], b);
      assert (a + b)[..3] == a[..3] && (a + b)[3..] == a[3..] + b;
      if |a| == 3 {
        assert a[..3] == a;
      }
      assert Core(a) == Quad(a[..3]) + Core(a[3..]);
    }
  }

  /** One more group of the data is one more group of the text. */
  lemma FlatStep(rules: Rules, d: seq<byte>, i: nat)
    requires i % 3 == 0 && i < |d|
    ensures var j := if i + 3 <= |d| then i + 3 else |d|;
            && |Flat(rules, d[..i])| == i / 3 * 4 && |Flat(rules, d[i..j])| == 4
            && Flat(rules, d[..j]) == Flat(rules, d[..i]) + Flat(rules, d[i..j])
  {
    hide Core, Chars, Pads, TextSize;
    var j := if i + 3 <= |d| then i + 3 else |d|;
    assert d[..j] == d[..i] + d[i..j];
    CoreConcat(d[..i], d[i..j]);
    GroupSizes(i, j);
    var a, b, pads := Core(d[..i]), Core(d[i..j]), Repeat(rules.pad, Pads(j - i));
    CharsConcat(rules, a, b);
    Regroup(Chars(rules, a), Chars(rules, b), pads);
    assert Chars(rules, a) + Repeat(rules.pad, 0) == Chars(rules, a);
  }

  lemma GroupSizes(i: nat, j: nat)
    requires i % 3 == 0 && i < j <= i + 3
    ensures TextSize(i) == i / 3 * 4 && TextSize(j - i) == 4 && Pads(j) == Pads(j - i) && Pads(i) == 0
  {
  }

  lemma CharsConcat(rules: Rules, a: seq<byte>, b: seq<byte>)
    requires AreIds(a) && AreIds(b)
    ensures Chars(rules, a + b) == Chars(rules, a) + Chars(rules, b)
  {
    hide Char;
  }

  /** The last line is full. */
  predicate LineIsFull(n: nat, line: nat) {
    line > 0 && n > 0 && n % line == 0
  }

  lemma FullLines(n: nat, line: nat)
    requires line > 0
    ensures n < line ==> !LineIsFull(n, line)
    ensures n == line ==> LineIsFull(n, line)
    ensures n > line ==> LineIsFull(n, line) == LineIsFull(n - line, line)
  {
    if n > line {
      DropLine(n, line);
    }
  }

  ghost function Break(n: nat, line: nat): seq<byte> {
    if LineIsFull(n, line) then [CR, LF] else []
  }

  /** Appending one more group starts a line when the last one is full. */
  lemma {:induction false} LinesAppend(t: seq<byte>, g: seq<byte>, line: nat)
    requires |t| % 4 == 0 && |g| == 4 && line % 4 == 0
    ensures Lines(t + g, line) == Lines(t, line) + Break(|t|, line) + g
    decreases |t|
  {
    hide LineIsFull, Lines, Break;
    if line > 0 && |t| > line {
      LinesAppend(t[line..], g, line);
      FullLines(|t|, line);
      AppendAfterLine(t, g, line);
    } else {
      AppendToFirstLine(t, g, line);
    }
  }

  lemma AppendAfterLine(t: seq<byte>, g: seq<byte>, line: nat)
    requires 0 < line < |t| && LineIsFull(|t|, line) == LineIsFull(|t| - line, line)
    requires Lines(t[line..] + g, line) == Lines(t[line..], line) + Break(|t| - line, line) + g
    ensures Lines(t + g, line) == Lines(t, line) + Break(|t|, line) + g
  {
    hide LineIsFull, Lines;
    var brk := Break(|t|, line);
    LinesUnfold(t, line);
    LinesUnfold(t + g, line);
    assert (t + g)[..line] == t[..line] && (t + g)[line..] == t[line..] + g;
    Regroup(t[..line] + [CR, LF], Lines(t[line..], line) + brk, g);
    Regroup(t[..line] + [CR, LF], Lines(t[line..], line), brk);
  }

  lemma AppendToFirstLine(t: seq<byte>, g: seq<byte>, line: nat)
    requires |t| % 4 == 0 && |g| == 4 && line % 4 == 0 && (line == 0 || |t| <= line)
    ensures Lines(t + g, line) == Lines(t, line) + Break(|t|, line) + g
  {
    hide LineIsFull, Lines;
    LinesUnfold(t, line);
    LinesUnfold(t + g, line);
    if line == 0 {
      NoLines(|t|);
      assert t + [] + g == t + g;
    } else {
      FullLines(|t|, line);
      if |t| == line {
        assert (t + g)[..line] == t && (t + g)[line..] == g;
        LinesUnfold(g, line);
      } else {
        assert |t + g| <= line;
        assert t + [] + g == t + g;
      }
    }
  }

  lemma LinesUnfold(t: seq<byte>, line: nat)
    ensures Lines(t, line) == if line == 0 || |t| <= line then t else t[..line] + [CR, LF] + Lines(t[line..], line)
  {
  }

  lemma NoLines(n: nat)
    ensures !LineIsFull(n, 0)
  {
  }

  lemma SizeIs(n: nat)
    ensures TextSize(n) == (n / 3 + if n % 3 != 0 then 1 else 0) * 4
  {
  }

  lemma BoundIs(n: nat, line: nat)
    ensures Bound(n, line) == TextSize(n) + (if line == 0 then 0 else TextSize(n) / line * 2) + 1
  {
  }

  /** The text of the first i octets of the data. */
  ghost function TextOf(rules: Rules, d: seq<byte>, i: nat): seq<byte> {
    Lines(Flat(rules, d[..if i < |d| then i else |d|]), rules.line)
  }

  lemma EmptyText(rules: Rules, d: seq<byte>)
    ensures TextOf(rules, d, 0) == [] && Bound(|d|, rules.line) > 0
    ensures forall i :: i >= |d| ==> TextOf(rules, d, i) == Lines(Flat(rules, d), rules.line)
  {
    hide Flat, Lines, Bound;
    assert d[..0] == [] && d[..|d|] == d;
    EncodedFits(rules, d);
    FlatOfNothing(rules);
    LinesUnfold([], rules.line);
  }

  lemma FlatOfNothing(rules: Rules)
    ensures Flat(rules, []) == []
  {
  }

  // ----- the C functions -----

  lemma FlatOfGroup(rules: Rules, g: seq<byte>)
    requires 1 <= |g| <= 3
    ensures var q, flat := Quad(g), Flat(rules, g);
            && |q| == |g| + 1 && |flat| == 4
            && (forall k :: 0 <= k <= |g| ==> flat[k] == Char(rules, q[k]))
            && (forall k :: |g| < k < 4 ==> flat[k] == rules.pad)
  {
    hide Char, Quad;
    CoreOfFew(g);
  }

  /** The loop body of atcab_base64encode_: the group of the data from i to j. */
  method PutGroup(rules: Rules, data: array<byte>, i: nat, j: nat, encoded: array<byte>, at: nat) returns (newAt: nat)
    requires i < j <= data.Length && j - i <= 3 && at + 4 <= encoded.Length && data != encoded
    modifies encoded
    ensures newAt == at + 4 && encoded[..newAt] == old(encoded[..at]) + Flat(rules, data[i..j])
    ensures forall k :: newAt <= k < encoded.Length ==> encoded[k] == old(encoded[k])
  {
    hide Flat;
    ghost var g: seq<byte> := data[i..j];
    FlatOfGroup(rules, g);
    PadChar(rules);
    var id: byte := data[i] / 4;
    encoded[at] := Char(rules, id);
    id := data[i] % 4 * 16;
    if i + 1 < j {
      id := id + data[i + 1] / 16;
      encoded[at + 1] := Char(rules, id);
      id := data[i + 1] % 16 * 4;
      if i + 2 < j {
        id := id + data[i + 2] / 64;
        encoded[at + 2] := Char(rules, id);
        id := data[i + 2] % 64;
        encoded[at + 3] := Char(rules, id);
      } else {
        encoded[at + 2] := Char(rules, id);
        encoded[at + 3] := Char(rules, EQUAL);
      }
    } else {
      encoded[at + 1] := Char(rules, id);
      encoded[at + 2] := Char(rules, EQUAL);
      encoded[at + 3] := Char(rules, EQUAL);
    }
    newAt := at + 4;
  }

  lemma PadChar(rules: Rules)
    ensures Char(rules, EQUAL) == rules.pad
  {
  }

  /** atcab_base64encode_: on success, the text and a terminating zero. */
  method EncodeBase64(rules: Rules, data: array<byte>, n: nat, encoded: array<byte>, size: nat) returns (st: Status, newSize: nat)
    requires n <= data.Length && size <= encoded.Length && data != encoded
    modifies encoded
    ensures var r := EncodeText(rules, data[..n], size);
            && st == r.Code()
            && (st.Ok? ==> newSize == |r.value| < size && encoded[..newSize] == r.value && encoded[newSize] == 0)
            && (!st.Ok? ==> newSize == size && encoded[..] == old(encoded[..]))
    ensures forall i :: Bound(n, rules.line) <= i < encoded.Length ==> encoded[i] == old(encoded[i])
  {
    hide Flat, Lines, Strip, Bound, TextSize;
    var b64Len := (n / 3 + if n % 3 != 0 then 1 else 0) * 4;
    SizeIs(n);
    BoundIs(n, rules.line);
    if rules.line != 0 {
      if rules.line % 4 != 0 {
        return BadParams, size;
      }
      b64Len := b64Len + b64Len / rules.line * 2;
    }
    b64Len := b64Len + 1;
    if size < b64Len {
      return BufferTooSmall, size;
    }
    var at := PutText(rules, data, n, encoded);
    newSize := StripText(encoded, at);
    st := Ok;
  }

  /** The loop of atcab_base64encode_: the text in lines. */
  method PutText(rules: Rules, data: array<byte>, n: nat, encoded: array<byte>) returns (at: nat)
    requires n <= data.Length && Bound(n, rules.line) <= encoded.Length && data != encoded && rules.line % 4 == 0
    modifies encoded
    ensures at < Bound(n, rules.line) && encoded[..at] == Lines(Flat(rules, data[..n]), rules.line)
    ensures forall i :: Bound(n, rules.line) <= i < encoded.Length ==> encoded[i] == old(encoded[i])
  {
    hide Flat, Lines, Bound, TextSize, TextOf, StartsLine;
    ghost var d: seq<byte> := data[..n];
    ghost var was: seq<byte> := encoded[..];
    at := 0;
    var dataIdx, offset := 0, 0;
    EmptyText(rules, d);
    while dataIdx < n
      invariant dataIdx % 3 == 0 && at < Bound(n, rules.line)
      invariant encoded[..at] == TextOf(rules, d, dataIdx)
      invariant dataIdx < n ==> at - offset == dataIdx / 3 * 4
      invariant forall i :: Bound(n, rules.line) <= i < encoded.Length ==> encoded[i] == was[i]
      decreases n - dataIdx
    {
      at, offset := PutStep(rules, data, n, dataIdx, encoded, at, offset);
      dataIdx := dataIdx + 3;
    }
  }

  /** The body of that loop: a line break if one is due, and the next group. */
  method PutStep(rules: Rules, data: array<byte>, n: nat, i: nat, encoded: array<byte>, at: nat, offset: nat)
    returns (newAt: nat, newOffset: nat)
    requires n <= data.Length && Bound(n, rules.line) <= encoded.Length && data != encoded && rules.line % 4 == 0
    requires i % 3 == 0 && i < n && at - offset == i / 3 * 4
    requires at <= encoded.Length && encoded[..at] == TextOf(rules, data[..n], i)
    modifies encoded
    ensures newAt < Bound(n, rules.line) && newAt - newOffset == (i + 3) / 3 * 4
    ensures encoded[..newAt] == TextOf(rules, data[..n], i + 3)
    ensures forall k :: Bound(n, rules.line) <= k < encoded.Length ==> encoded[k] == old(encoded[k])
  {
    hide Flat, Lines, Bound, TextSize, TextOf, StartsLine;
    newAt, newOffset := at, offset;
    var j := if i + 3 <= n then i + 3 else n;
    StepFits(rules, data[..n], i, j);
    if StartsLine(rules, i, at - offset) {
      newAt := PutBreak(encoded, at);
      newOffset := offset + 2;
    } else {
      assert encoded[..at] == encoded[..at] + [];
    }
    SliceOfSlice(data[..], 0, n, i, j);
    assert data[i..j] == data[..n][i..j];
    newAt := PutGroup(rules, data, i, j, encoded, newAt);
  }

  method PutBreak(encoded: array<byte>, at: nat) returns (newAt: nat)
    requires at + 2 <= encoded.Length
    modifies encoded
    ensures newAt == at + 2 && encoded[..newAt] == old(encoded[..at]) + [CR, LF]
    ensures forall k :: newAt <= k < encoded.Length ==> encoded[k] == old(encoded[k])
  {
    encoded[at] := CR;
    encoded[at + 1] := LF;
    newAt := at + 2;
  }

  /** The condition for a line break before the group of octets at i, after that many characters. */
  predicate StartsLine(rules: Rules, i: nat, chars: nat) {
    rules.line != 0 && i > 0 && chars % rules.line == 0
  }

  /** What the loop writes next, and that it fits. */
  lemma StepFits(rules: Rules, d: seq<byte>, i: nat, j: nat)
    requires i % 3 == 0 && i < |d| && rules.line % 4 == 0 && j == if i + 3 <= |d| then i + 3 else |d|
    ensures var line := rules.line;
            var brk := if StartsLine(rules, i, i / 3 * 4) then [CR, LF] else [];
            && TextOf(rules, d, i + 3) == TextOf(rules, d, i) + brk + Flat(rules, d[i..j])
            && |TextOf(rules, d, i + 3)| < Bound(|d|, line)
            && |Flat(rules, d[i..j])| == 4
  {
    hide Flat, Lines, Bound;
    FlatStep(rules, d, i);
    LinesAppend(Flat(rules, d[..i]), Flat(rules, d[i..j]), rules.line);
    TextFits(Flat(rules, d[..j]), |d|, rules.line);
  }

  /** Lines 807-815 of atca_helpers.c: drops trailing zeros and writes one. */
  method StripText(encoded: array<byte>, size: nat) returns (at: nat)
    requires size < encoded.Length
    modifies encoded
    ensures at <= size && encoded[..at] == Strip(old(encoded[..size])) && encoded[at] == 0
    ensures forall i :: size < i < encoded.Length ==> encoded[i] == old(encoded[i])
  {
    at := size;
    ghost var text: seq<byte> := encoded[..size];
    assert text[..size] == text;
    while at > 1 && encoded[at - 1] == 0
      invariant at <= size && Strip(text[..at]) == Strip(text)
    {
      assert text[..at][..at - 1] == text[..at - 1];
      at := at - 1;
    }
    assert encoded[..at] == text[..at];
    encoded[at] := 0;
    assert encoded[..at] == text[..at];
  }

  /** atcab_base64decode_block: appends what the four indices say, if it fits. */
  method DecodeBlock(id: array<byte>, data: array<byte>, size: nat, max: nat) returns (st: Status, newSize: nat)
    requires id.Length == 4 && id != data && (forall k :: 0 <= k < 4 ==> id[k] <= EQUAL) && size <= max <= data.Length
    modifies data
    ensures size <= newSize <= max
    ensures var r := Block(id[0], id[1], id[2], id[3]);
            && (st.Ok? <==> r.Success? && size + |r.value| <= max) && (!st.Ok? ==> st == BadParams)
            && (st.Ok? ==> data[..newSize] == old(data[..size]) + r.value)
    ensures forall k :: max <= k < data.Length ==> data[k] == old(data[k])
  {
    newSize := size;
    if id[0] == EQUAL || id[1] == EQUAL || (id[2] == EQUAL && id[3] != EQUAL) {
      return BadParams, newSize;
    }
    var newBytes := if id[2] == EQUAL then 1 else if id[3] == EQUAL then 2 else 3;
    if size + newBytes > max {
      return BadParams, newSize;
    }
    data[newSize] := id[0] * 4 + id[1] / 16;
    newSize := newSize + 1;
    if id[2] == EQUAL {
      return Ok, newSize;
    }
    data[newSize] := id[1] % 16 * 16 + id[2] / 4;
    newSize := newSize + 1;
    if id[3] == EQUAL {
      return Ok, newSize;
    }
    data[newSize] := id[2] % 4 * 64 + id[3];
    newSize := newSize + 1;
    st := Ok;
  }

  /** What remains to decode after some blocks, some indices of the next one, and the rest of the text. */
  ghost function Resume(rules: Rules, out: seq<byte>, ended: bool, ids: seq<byte>, rest: seq<byte>, max: nat): Result<seq<byte>>
    requires AreIds(ids)
  {
    var more :- Symbols(rules, rest);
    if ended then (if ids + more == [] then Fit(out, max) else Failure(BadParams))
    else
      var tail :- DecodeIds(ids + more);
      Fit(out + tail, max)
  }

  lemma ResumeStart(rules: Rules, t: seq<byte>, max: nat)
    ensures Resume(rules, [], false, [], t, max) == Decode(rules, t, max)
  {
    hide DecodeIds, Symbols;
    var ids := Symbols(rules, t);
    if ids.Success? {
      assert [] + ids.value == ids.value;
      if DecodeIds(ids.value).Success? {
        assert [] + DecodeIds(ids.value).value == DecodeIds(ids.value).value;
      }
    }
  }

  /** One character that is not blank. */
  lemma ResumeStep(rules: Rules, out: seq<byte>, ids: seq<byte>, rest: seq<byte>, max: nat)
    requires |ids| < 4 && AreIds(ids) && rest != [] && !IsBlankSpace(rest[0])
    ensures Resume(rules, out, true, ids, rest, max) == Failure(BadParams)
    ensures if IsBase64Digit(rules, rest[0]) then
              var more := ids + [Index(rules, rest[0])];
              Resume(rules, out, false, ids, rest, max) == Resume(rules, out, false, more, rest[1..], max)
            else Resume(rules, out, false, ids, rest, max) == Failure(BadParams)
  {
    hide DecodeIds, Index, IsBase64Digit, IsBlankSpace;
    var more := Symbols(rules, rest[1..]);
    if IsBase64Digit(rules, rest[0]) && more.Success? {
      Regroup(ids, [Index(rules, rest[0])], more.value);
      assert |ids + Symbols(rules, rest).value| > 0;
    }
  }

  /** A complete block. */
  lemma ResumeBlock(rules: Rules, out: seq<byte>, q: seq<byte>, rest: seq<byte>, max: nat)
    requires |q| == 4 && AreIds(q)
    ensures var octets := Group(q);
            Resume(rules, out, false, q, rest, max)
            == if octets.Success? && |out| + |octets.value| <= max
               then Resume(rules, out + octets.value, q[3] == EQUAL, [], rest, max)
               else Failure(BadParams)
  {
    hide Group, Symbols, DecodeIds;
    var symbols, octets := Symbols(rules, rest), Group(q);
    if symbols.Success? {
      var more := symbols.value;
      assert [] + more == more;
      DecodeFirst(q, more);
      EmptyDecodes([]);
      if octets.Success? {
        assert octets.value + [] == octets.value;
        assert out + octets.value + [] == out + octets.value;
        if DecodeIds(more).Success? {
          Regroup(out, octets.value, DecodeIds(more).value);
        }
      }
    }
  }

  lemma DecodeFirst(q: seq<byte>, more: seq<byte>)
    requires |q| == 4 && AreIds(q) && AreIds(more)
    ensures AreIds(q + more)
    ensures var r, octets := DecodeIds(q + more), Group(q);
            && (octets.Failure? ==> r == Failure(BadParams))
            && (octets.Success? && more == [] ==> r == octets)
            && (octets.Success? && more != [] && q[3] == EQUAL ==> r == Failure(BadParams))
            && (octets.Success? && more != [] && q[3] != EQUAL && DecodeIds(more).Failure? ==> r == Failure(BadParams))
            && (octets.Success? && more != [] && q[3] != EQUAL && DecodeIds(more).Success? ==>
                  r == Success(octets.value + DecodeIds(more).value))
  {
    hide Block;
    var ids := q + more;
    assert ids[..4] == q && ids[4..] == more;
    if more == [] {
      assert ids == q;
    }
  }

  /** atcab_base64decode_. */
  method DecodeBase64(rules: Rules, encoded: array<byte>, n: nat, data: array<byte>, max: nat) returns (st: Status, newSize: nat)
    requires n <= encoded.Length && max <= data.Length && encoded != data
    modifies data
    ensures newSize <= max
    ensures var r := Decode(rules, encoded[..n], max);
            st == r.Code() && (st.Ok? ==> newSize == |r.value| && data[..newSize] == r.value)
    ensures forall k :: max <= k < data.Length ==> data[k] == old(data[k])
  {
    hide DecodeIds, Symbols, Decode, Block, Resume, IsBlankSpace, IsBase64Digit, Index;
    ghost var text: seq<byte> := encoded[..n];
    var id := new byte[4](_ => 0);
    var idIndex, ended := 0, false;
    newSize := 0;
    ResumeStart(rules, text, max);
    assert text[0..] == text && data[..0] == [] && id[..0] == [];
    for i := 0 to n
      invariant 0 <= idIndex < 4 && newSize <= max && (ended ==> idIndex == 0)
      invariant AreIds(id[..idIndex])
      invariant Resume(rules, data[..newSize], ended, id[..idIndex], text[i..], max) == Decode(rules, text, max)
      invariant forall k :: max <= k < data.Length ==> data[k] == old(data[k])
    {
      assert encoded[i] == text[i..][0] && text[i..][1..] == text[i + 1..];
      if IsBlankSpace(encoded[i]) {
        ResumeBlank(rules, data[..newSize], ended, id[..idIndex], text[i..], max);
        continue;
      }
      ResumeStep(rules, data[..newSize], id[..idIndex], text[i..], max);
      if !IsBase64Digit(rules, encoded[i]) {
        return BadParams, newSize;
      }
      if ended {
        return BadParams, newSize;
      }
      ghost var before := id[..idIndex];
      id[idIndex] := Index(rules, encoded[i]);
      idIndex := idIndex + 1;
      assert id[..idIndex] == before + [Index(rules, encoded[i])];
      if idIndex >= 4 {
        idIndex := 0;
        assert id[..4] == id[..] == before + [Index(rules, encoded[i])];
        ResumeBlock(rules, data[..newSize], id[..], text[i + 1..], max);
        st, newSize := DecodeBlock(id, data, newSize, max);
        if st != Ok {
          return;
        }
        ended := id[3] == EQUAL;
        assert id[..0] == [];
      }
    }
    assert text[n..] == [];
    st, newSize := FinishDecode(rules, id, idIndex, ended, data, newSize, max);
  }

  /** Lines 700-715 of atca_helpers.c: a last block without its pads. */
  method FinishDecode(rules: Rules, id: array<byte>, count: nat, ghost ended: bool, data: array<byte>, size: nat, max: nat)
    returns (st: Status, newSize: nat)
    requires id.Length == 4 && count < 4 && AreIds(id[..count]) && (ended ==> count == 0)
    requires id != data && size <= max <= data.Length
    modifies id, data
    ensures newSize <= max
    ensures var r := Resume(rules, old(data[..size]), ended, old(id[..count]), [], max);
            st == r.Code() && (st.Ok? ==> newSize == |r.value| && data[..newSize] == r.value)
    ensures forall k :: max <= k < data.Length ==> data[k] == old(data[k])
  {
    hide Resume, Block, Symbols, DecodeIds;
    newSize := size;
    ghost var last := id[..count];
    ResumeEnd(rules, data[..size], ended, last, max);
    if count == 0 {
      return Ok, size;
    }
    if count < 2 {
      return BadParams, size;
    }
    var idIndex := count;
    while idIndex < 4
      invariant count <= idIndex <= 4 && id[..count] == last
      invariant forall k :: count <= k < idIndex ==> id[k] == EQUAL
      modifies id
    {
      id[idIndex] := EQUAL;
      idIndex := idIndex + 1;
    }
    GroupOfTail(last, id[..]);
    st, newSize := DecodeBlock(id, data, size, max);
  }

  lemma ResumeBlank(rules: Rules, out: seq<byte>, ended: bool, ids: seq<byte>, rest: seq<byte>, max: nat)
    requires AreIds(ids) && rest != [] && IsBlankSpace(rest[0])
    ensures Resume(rules, out, ended, ids, rest, max) == Resume(rules, out, ended, ids, rest[1..], max)
  {
  }

  lemma ResumeEnd(rules: Rules, out: seq<byte>, ended: bool, ids: seq<byte>, max: nat)
    requires AreIds(ids) && |ids| < 4 && |out| <= max && (ended ==> ids == [])
    ensures Resume(rules, out, ended, ids, [], max)
            == if ids == [] then Success(out)
               else if Group(ids).Failure? then Failure(BadParams)
               else Fit(out + Group(ids).value, max)
  {
    assert ids + [] == ids && out + [] == out;
  }

  lemma GroupOfTail(last: seq<byte>, id: seq<byte>)
    requires 2 <= |last| <= 3 && |id| == 4 && id[..|last|] == last && AreIds(last)
    requires forall k :: |last| <= k < 4 ==> id[k] == EQUAL
    ensures AreIds(id) && Group(last) == Block(id[0], id[1], id[2], id[3])
  {
    assert forall k :: 0 <= k < |last| ==> id[k] == last[k];
  }
}
