/**
 * The four-state parser for unsolicited result codes inside the receive interrupt of
 * src/sequans_controller.cpp, one byte at a time, against a scanner that looks at the whole stream.
 */
module UrcParser {
  import opened Bytes
  import opened UrcTable

  const DATA_SIZE: nat := 384

  const PLUS: byte := 43
  const COLON: byte := 58

  datatype State = NotParsing | Evaluating | ParsingIdentifier | ParsingData

  /** The filled parts of the two buffers, the matched slot and the callback to fire. */
  datatype Parser = Parser(state: State, id: seq<byte>, data: seq<byte>, index: nat, callback: Option<nat>)

  /** A callback and the data it is given. */
  datatype Fire = Fire(callback: nat, data: seq<byte>)

  /** What a byte completes: nothing, a registered identifier, or a URC's data. */
  datatype Action = Quiet | Matched | Ended(fire: Option<Fire>)

  predicate EndsId(b: byte) { b == COLON || b == CR }

  predicate EndsData(b: byte) { b == CR || b == LF }

  ghost function Start(): Parser { Parser(NotParsing, [], [], 0, None) }

  /** The switch of the interrupt handler. */
  ghost function Next(p: Parser, t: seq<Urc>, b: byte): (Parser, Action) {
    match p.state
    case NotParsing =>
      (if b == PLUS then p.(state := Evaluating, id := []) else p, Quiet)
    case Evaluating =>
      (if IsDigit(b) then p.(state := NotParsing) else p.(state := ParsingIdentifier, id := p.id + [b]), Quiet)
    case ParsingIdentifier =>
      if EndsId(b) then
        var i := Lookup(t, p.id);
        if i < |t| then (Parser(ParsingData, [], [], i, t[i].callback), Matched)
        else (p.(state := NotParsing, id := []), Quiet)
      else if |p.id| == ID_SIZE then (p.(state := NotParsing), Quiet)
      else (p.(id := p.id + [b]), Quiet)
    case ParsingData =>
      if EndsData(b) then
        var fire := if p.callback.Some? then Some(Fire(p.callback.value, p.data)) else None;
        (p.(state := NotParsing, data := [], callback := None), Ended(fire))
      else if |p.data| == DATA_SIZE then (p.(state := NotParsing), Quiet)
      else (p.(data := p.data + [b]), Quiet)
  }

  /** What the buffers and the index need to stay in bounds. */
  ghost predicate Bounded(p: Parser) {
    && |p.id| <= ID_SIZE && |p.data| <= DATA_SIZE && p.index < SLOTS
    && (p.state.Evaluating? ==> p.id == [])
    && (p.state.ParsingIdentifier? ==> p.id != [])
  }

  lemma NextBounded(p: Parser, t: seq<Urc>, b: byte)
    requires Bounded(p) && |t| == SLOTS
    ensures Bounded(Next(p, t, b).0)
  {
    hide First;
  }

  // ----- the whole stream -----

  ghost function Fires(a: Action): seq<Fire> {
    if a.Ended? && a.fire.Some? then [a.fire.value] else []
  }

  /** One table of callbacks for each byte of a stream: the one in force when the byte arrives. */
  ghost predicate Tables(ts: seq<seq<Urc>>, s: seq<byte>) {
    |ts| == |s| && forall i :: 0 <= i < |ts| ==> |ts[i]| == SLOTS
  }

  /** The parser after a stream, and the callbacks it fired. */
  ghost function Feed(p: Parser, ts: seq<seq<Urc>>, s: seq<byte>): (Parser, seq<Fire>)
    requires |ts| == |s|
    decreases |s|
  {
    if s == [] then (p, [])
    else
      var (next, action) := Next(p, ts[0], s[0]);
      var (last, fires) := Feed(next, ts[1..], s[1..]);
      (last, Fires(action) + fires)
  }

  ghost predicate IsEnd(b: byte, inData: bool) { if inData then EndsData(b) else EndsId(b) }

  /** Where the first terminator is, or the length of the stream. */
  ghost function FindEnd(s: seq<byte>, inData: bool): (k: nat)
    ensures k <= |s| && (k < |s| ==> IsEnd(s[k], inData)) && forall i :: 0 <= i < k ==> !IsEnd(s[i], inData)
  {
    if s == [] || IsEnd(s[0], inData) then 0 else 1 + FindEnd(s[1..], inData)
  }

  /** The stream after its first n bytes. */
  ghost function Skip<T>(s: seq<T>, n: nat): (r: seq<T>)
    ensures |r| == if n <= |s| then |s| - n else 0
  {
    if n <= |s| then s[n..] else []
  }

  /** The callbacks a stream fires when nothing is being parsed: look for a '+'. */
  ghost function Scan(ts: seq<seq<Urc>>, s: seq<byte>): seq<Fire>
    requires |ts| == |s|
    decreases |s|, 0
  {
    if s == [] then []
    else if s[0] != PLUS then Scan(ts[1..], s[1..])
    else if |s| == 1 then []
    else if IsDigit(s[1]) then Scan(ts[2..], s[2..])
    else ScanId(ts[2..], [s[1]], s[2..])
  }

  /** An identifier has begun: it ends at the first ':' or CR, or is dropped after 28 characters. */
  ghost function ScanId(ts: seq<seq<Urc>>, begun: seq<byte>, s: seq<byte>): seq<Fire>
    requires |ts| == |s| && |begun| <= ID_SIZE
    decreases |s|, 1
  {
    var k := FindEnd(s, false);
    if |begun| + k > ID_SIZE then Scan(Skip(ts, ID_SIZE - |begun| + 1), Skip(s, ID_SIZE - |begun| + 1))
    else if k == |s| then []
    else
      var i := Lookup(ts[k], begun + s[..k]);
      if i < |ts[k]| then ScanData(ts[k + 1..], ts[k][i].callback, [], s[k + 1..]) else Scan(ts[k + 1..], s[k + 1..])
  }

  /** Data has begun: it ends at the first CR or LF, or is dropped after 384 bytes. */
  ghost function ScanData(ts: seq<seq<Urc>>, callback: Option<nat>, begun: seq<byte>, s: seq<byte>): seq<Fire>
    requires |ts| == |s| && |begun| <= DATA_SIZE
    decreases |s|, 1
  {
    var k := FindEnd(s, true);
    if |begun| + k > DATA_SIZE then Scan(Skip(ts, DATA_SIZE - |begun| + 1), Skip(s, DATA_SIZE - |begun| + 1))
    else if k == |s| then []
    else (if callback.Some? then [Fire(callback.value, begun + s[..k])] else []) + Scan(ts[k + 1..], s[k + 1..])
  }

  /** What a stream fires when it meets a parser in some state. */
  ghost function ScanFrom(p: Parser, ts: seq<seq<Urc>>, s: seq<byte>): seq<Fire>
    requires |ts| == |s| && Bounded(p)
  {
    match p.state
    case NotParsing => Scan(ts, s)
    case Evaluating => if s == [] then [] else if IsDigit(s[0]) then Scan(ts[1..], s[1..]) else ScanId(ts[1..], [s[0]], s[1..])
    case ParsingIdentifier => ScanId(ts, p.id, s)
    case ParsingData => ScanData(ts, p.callback, p.data, s)
  }

  /** The byte-at-a-time parser fires exactly what the scanner finds, from any state and for any stream. */
  lemma {:induction false} FeedIsScan(p: Parser, ts: seq<seq<Urc>>, s: seq<byte>)
    requires Bounded(p) && Tables(ts, s)
    ensures Feed(p, ts, s).1 == ScanFrom(p, ts, s)
    decreases |s|
  {
    hide First, Next, ScanFrom, Bounded;
    if s == [] {
      NothingToScan(p);
    } else {
      var (next, action) := Next(p, ts[0], s[0]);
      NextBounded(p, ts[0], s[0]);
      FeedIsScan(next, ts[1..], s[1..]);
      ScanStep(p, ts, s);
    }
  }

  lemma NothingToScan(p: Parser)
    requires Bounded(p)
    ensures ScanFrom(p, [], []) == []
  {
  }

  lemma ScanStep(p: Parser, ts: seq<seq<Urc>>, s: seq<byte>)
    requires Bounded(p) && Tables(ts, s) && s != []
    ensures var (next, action) := Next(p, ts[0], s[0]);
            Bounded(next) && ScanFrom(p, ts, s) == Fires(action) + ScanFrom(next, ts[1..], s[1..])
  {
    hide First, Next, ScanFrom, Bounded;
    NextBounded(p, ts[0], s[0]);
    match p.state {
      case NotParsing => StartStep(p, ts, s);
      case Evaluating => EvaluatingStep(p, ts, s);
      case ParsingIdentifier => IdStep(p, ts, s);
      case ParsingData => DataStep(p, ts, s);
    }
  }

  lemma StartStep(p: Parser, ts: seq<seq<Urc>>, s: seq<byte>)
    requires Bounded(p) && p.state.NotParsing? && Tables(ts, s) && s != []
    ensures var (next, action) := Next(p, ts[0], s[0]);
            Bounded(next) && ScanFrom(p, ts, s) == Fires(action) + ScanFrom(next, ts[1..], s[1..])
  {
    hide First, ScanId, ScanData;
    if |s| > 1 {
      assert s[1..][0] == s[1] && s[1..][1..] == s[2..] && ts[1..][1..] == ts[2..];
    }
  }

  lemma EvaluatingStep(p: Parser, ts: seq<seq<Urc>>, s: seq<byte>)
    requires Bounded(p) && p.state.Evaluating? && Tables(ts, s) && s != []
    ensures var (next, action) := Next(p, ts[0], s[0]);
            Bounded(next) && ScanFrom(p, ts, s) == Fires(action) + ScanFrom(next, ts[1..], s[1..])
  {
    hide First, ScanId, ScanData, Scan;
    assert [] + [s[0]] == [s[0]];
  }

  lemma IdStep(p: Parser, ts: seq<seq<Urc>>, s: seq<byte>)
    requires Bounded(p) && p.state.ParsingIdentifier? && Tables(ts, s) && s != []
    ensures var (next, action) := Next(p, ts[0], s[0]);
            Bounded(next) && ScanFrom(p, ts, s) == Fires(action) + ScanFrom(next, ts[1..], s[1..])
  {
    hide First, Scan, ScanId, ScanData;
    if EndsId(s[0]) {
      IdEnds(ts, p.id, s);
    } else if |p.id| == ID_SIZE {
      IdOverflows(ts, p.id, s);
    } else {
      IdGrows(ts, p.id, s);
    }
  }

  lemma IdEnds(ts: seq<seq<Urc>>, id: seq<byte>, s: seq<byte>)
    requires Tables(ts, s) && |id| <= ID_SIZE && s != [] && EndsId(s[0])
    ensures var i := Lookup(ts[0], id);
            ScanId(ts, id, s) == if i < |ts[0]| then ScanData(ts[1..], ts[0][i].callback, [], s[1..]) else Scan(ts[1..], s[1..])
  {
    hide First, Scan, ScanData;
    assert FindEnd(s, false) == 0 && id + s[..0] == id;
  }

  lemma IdOverflows(ts: seq<seq<Urc>>, id: seq<byte>, s: seq<byte>)
    requires Tables(ts, s) && |id| == ID_SIZE && s != [] && !EndsId(s[0])
    ensures ScanId(ts, id, s) == Scan(ts[1..], s[1..])
  {
    hide First, Scan, ScanData;
  }

  lemma IdGrows(ts: seq<seq<Urc>>, id: seq<byte>, s: seq<byte>)
    requires Tables(ts, s) && |id| < ID_SIZE && s != [] && !EndsId(s[0])
    ensures ScanId(ts, id, s) == ScanId(ts[1..], id + [s[0]], s[1..])
  {
    hide ScanId, AfterId, Scan, FindEnd, Skip, IsEnd, EndsId;
    StillInId(s[0]);
    EndIsLater(ts, s, false, id, ID_SIZE);
    var later, rest, begun := ts[1..], s[1..], id + [s[0]];
    var j := FindEnd(rest, false);
    if |begun| + j > ID_SIZE {
      IdTooLong(ts, id, s);
      IdTooLong(later, begun, rest);
    } else if j == |rest| {
      IdOpen(ts, id, s);
      IdOpen(later, begun, rest);
    } else {
      IdClosed(ts, id, s, 1 + j);
      IdClosed(later, begun, rest, j);
    }
  }

  lemma StillInId(b: byte)
    requires !EndsId(b)
    ensures !IsEnd(b, false)
  {
  }

  lemma IdTooLong(ts: seq<seq<Urc>>, begun: seq<byte>, s: seq<byte>)
    requires |ts| == |s| && |begun| <= ID_SIZE && |begun| + FindEnd(s, false) > ID_SIZE
    ensures ScanId(ts, begun, s) == Scan(Skip(ts, ID_SIZE - |begun| + 1), Skip(s, ID_SIZE - |begun| + 1))
  {
    hide FindEnd, Scan, Skip, Lookup;
  }

  lemma IdOpen(ts: seq<seq<Urc>>, begun: seq<byte>, s: seq<byte>)
    requires |ts| == |s| && |begun| + |s| <= ID_SIZE && FindEnd(s, false) == |s|
    ensures ScanId(ts, begun, s) == []
  {
    hide FindEnd, Scan, Skip, Lookup;
  }

  lemma IdClosed(ts: seq<seq<Urc>>, begun: seq<byte>, s: seq<byte>, k: nat)
    requires |ts| == |s| && k == FindEnd(s, false) < |s| && |begun| + k <= ID_SIZE
    ensures ScanId(ts, begun, s) == AfterId(begun + s[..k], ts[k], ts[k + 1..], s[k + 1..])
  {
    hide FindEnd, Scan, Skip, Lookup, Meets;
  }

  /** What follows an identifier that ended while t was in force. */
  ghost function AfterId(id: seq<byte>, t: seq<Urc>, ts: seq<seq<Urc>>, s: seq<byte>): seq<Fire>
    requires |ts| == |s|
  {
    var i := Lookup(t, id);
    if i < |t| then ScanData(ts, t[i].callback, [], s) else Scan(ts, s)
  }

  /** The first terminator seen from one byte further on. */
  lemma EndIsLater(ts: seq<seq<Urc>>, s: seq<byte>, inData: bool, begun: seq<byte>, max: nat)
    requires |ts| == |s| && s != [] && !IsEnd(s[0], inData) && |begun| < max
    ensures var later, rest := ts[1..], s[1..];
            var j := FindEnd(rest, inData);
            && FindEnd(s, inData) == 1 + j
            && begun + [s[0]] + rest[..j] == begun + s[..1 + j]
            && (j < |rest| ==> rest[j + 1..] == s[j + 2..] && later[j] == ts[1 + j] && later[j + 1..] == ts[j + 2..])
            && Skip(s, max - |begun| + 1) == Skip(rest, max - |begun|)
            && Skip(ts, max - |begun| + 1) == Skip(later, max - |begun|)
  {
    hide FindEnd, Skip;
    LaterEnd(s, inData);
    LaterSlices(ts, s, begun, FindEnd(s[1..], inData), max - |begun|);
  }

  lemma LaterEnd(s: seq<byte>, inData: bool)
    requires s != [] && !IsEnd(s[0], inData)
    ensures FindEnd(s, inData) == 1 + FindEnd(s[1..], inData)
  {
  }

  lemma LaterSlices(ts: seq<seq<Urc>>, s: seq<byte>, begun: seq<byte>, j: nat, n: nat)
    requires |ts| == |s| && s != [] && j < |s|
    ensures var later, rest := ts[1..], s[1..];
            && begun + [s[0]] + rest[..j] == begun + s[..1 + j]
            && (j < |rest| ==> rest[j + 1..] == s[j + 2..] && later[j] == ts[1 + j] && later[j + 1..] == ts[j + 2..])
            && Skip(s, n + 1) == Skip(rest, n)
            && Skip(ts, n + 1) == Skip(later, n)
  {
    var rest := s[1..];
    assert s[..1 + j] == [s[0]] + rest[..j];
    Regroup(begun, [s[0]], rest[..j]);
  }

  lemma DataStep(p: Parser, ts: seq<seq<Urc>>, s: seq<byte>)
    requires Bounded(p) && p.state.ParsingData? && Tables(ts, s) && s != []
    ensures var (next, action) := Next(p, ts[0], s[0]);
            Bounded(next) && ScanFrom(p, ts, s) == Fires(action) + ScanFrom(next, ts[1..], s[1..])
  {
    hide First, Scan, ScanId, ScanData;
    if EndsData(s[0]) {
      DataEnds(ts, p.callback, p.data, s);
    } else if |p.data| == DATA_SIZE {
      DataOverflows(ts, p.callback, p.data, s);
    } else {
      DataGrows(ts, p.callback, p.data, s);
    }
  }

  lemma DataEnds(ts: seq<seq<Urc>>, callback: Option<nat>, data: seq<byte>, s: seq<byte>)
    requires Tables(ts, s) && |data| <= DATA_SIZE && s != [] && EndsData(s[0])
    ensures ScanData(ts, callback, data, s) == (if callback.Some? then [Fire(callback.value, data)] else []) + Scan(ts[1..], s[1..])
  {
    hide Scan;
    assert FindEnd(s, true) == 0 && data + s[..0] == data;
  }

  lemma DataOverflows(ts: seq<seq<Urc>>, callback: Option<nat>, data: seq<byte>, s: seq<byte>)
    requires Tables(ts, s) && |data| == DATA_SIZE && s != [] && !EndsData(s[0])
    ensures ScanData(ts, callback, data, s) == Scan(ts[1..], s[1..])
  {
    hide Scan;
  }

  lemma DataGrows(ts: seq<seq<Urc>>, callback: Option<nat>, data: seq<byte>, s: seq<byte>)
    requires Tables(ts, s) && |data| < DATA_SIZE && s != [] && !EndsData(s[0])
    ensures ScanData(ts, callback, data, s) == ScanData(ts[1..], callback, data + [s[0]], s[1..])
  {
    hide Scan, FindEnd;
    EndIsLater(ts, s, true, data, DATA_SIZE);
  }

  // ----- one URC -----

  ghost predicate Yields(r: (Parser, seq<Fire>), last: Parser, fires: seq<Fire>) {
    r.0 == last && r.1 == fires
  }

  lemma {:induction false} FeedConcat(p: Parser, ts: seq<seq<Urc>>, us: seq<seq<Urc>>, a: seq<byte>, b: seq<byte>)
    requires |ts| == |a| && |us| == |b|
    ensures var (mid, before) := Feed(p, ts, a);
            var (end, after) := Feed(mid, us, b);
            Yields(Feed(p, ts + us, a + b), end, before + after)
    decreases |a|
  {
    hide Next;
    if a == [] {
      assert a + b == b && ts + us == us;
    } else {
      assert (a + b)[1..] == a[1..] + b && (ts + us)[1..] == ts[1..] + us;
      var (next, action) := Next(p, ts[0], a[0]);
      FeedConcat(next, ts[1..], us, a[1..], b);
      var mid := Feed(next, ts[1..], a[1..]);
      Regroup(Fires(action), mid.1, Feed(mid.0, us, b).1);
    }
  }

  /** No carriage return, and no line feed in data, no colon in an identifier. */
  ghost predicate NoEnds(s: seq<byte>, inData: bool) {
    forall i :: 0 <= i < |s| ==> s[i] != '\r' as int && s[i] != if inData then '\n' as int else ':' as int
  }

  /**
   * What can stand between '+' and the end character: one to 28 characters, the first of them no digit, and
   * no end character behind it.
   */
  ghost predicate IsIdentifier(id: seq<byte>) {
    1 <= |id| <= 28 && !('0' as int <= id[0] <= '9' as int) && NoEnds(id[1..], false)
  }

  /** The two characters that end an identifier, and the two that end data. */
  predicate IsStop(b: byte) { b == ':' as int || b == '\r' as int }

  predicate IsLineEnd(b: byte) { b == '\r' as int || b == '\n' as int }

  lemma IdByte(p: Parser, t: seq<Urc>, b: byte)
    requires p.state.ParsingIdentifier? && |p.id| < ID_SIZE && !IsEnd(b, false)
    ensures Next(p, t, b) == (p.(id := p.id + [b]), Quiet) && Fires(Quiet) == []
  {
  }

  lemma {:induction false} FeedIdentifier(p: Parser, ts: seq<seq<Urc>>, s: seq<byte>)
    requires |ts| == |s| && p.state.ParsingIdentifier? && |p.id| + |s| <= ID_SIZE && NoEnds(s, false)
    ensures Yields(Feed(p, ts, s), p.(id := p.id + s), [])
    decreases |s|
  {
    hide Next, Fires;
    if s == [] {
      assert p.id + s == p.id;
    } else {
      IdByte(p, ts[0], s[0]);
      FeedIdentifier(p.(id := p.id + [s[0]]), ts[1..], s[1..]);
      assert p.id + [s[0]] + s[1..] == p.id + s;
    }
  }

  lemma DataByte(p: Parser, t: seq<Urc>, b: byte)
    requires p.state.ParsingData? && |p.data| < DATA_SIZE && !IsEnd(b, true)
    ensures Next(p, t, b) == (p.(data := p.data + [b]), Quiet) && Fires(Quiet) == []
  {
  }

  lemma {:induction false} FeedData(p: Parser, ts: seq<seq<Urc>>, s: seq<byte>)
    requires |ts| == |s| && p.state.ParsingData? && |p.data| + |s| <= DATA_SIZE && NoEnds(s, true)
    ensures Yields(Feed(p, ts, s), p.(data := p.data + s), [])
    decreases |s|
  {
    hide Next, Fires;
    if s == [] {
      assert p.data + s == p.data;
    } else {
      DataByte(p, ts[0], s[0]);
      FeedData(p.(data := p.data + [s[0]]), ts[1..], s[1..]);
      assert p.data + [s[0]] + s[1..] == p.data + s;
    }
  }

  lemma FeedOne(p: Parser, t: seq<Urc>, b: byte)
    ensures Yields(Feed(p, [t], [b]), Next(p, t, b).0, Fires(Next(p, t, b).1))
  {
    hide Next;
    assert [b][1..] == [] && [t][1..] == [];
    assert Feed(Next(p, t, b).0, [], []) == (Next(p, t, b).0, []);
    assert Fires(Next(p, t, b).1) + [] == Fires(Next(p, t, b).1);
  }

  lemma StartsId(p: Parser, t: seq<Urc>, u: seq<Urc>, b: byte)
    requires p.state.NotParsing? && !IsDigit(b)
    ensures var evaluating := p.(state := Evaluating, id := []);
            && Next(p, t, PLUS) == (evaluating, Quiet)
            && Next(evaluating, u, b) == (p.(state := ParsingIdentifier, id := [b]), Quiet)
  {
    assert [] + [b] == [b];
  }

  /** After '+' and an identifier the parser holds exactly the identifier. */
  lemma FeedPlusId(p: Parser, ts: seq<seq<Urc>>, id: seq<byte>)
    requires p.state.NotParsing? && IsIdentifier(id) && |ts| == |id| + 1
    ensures Yields(Feed(p, ts, [PLUS] + id), p.(state := ParsingIdentifier, id := id), [])
  {
    hide Feed, Next, NoEnds;
    var evaluating := p.(state := Evaluating, id := []);
    var begun := p.(state := ParsingIdentifier, id := [id[0]]);
    assert id == [id[0]] + id[1..];
    assert ts == [ts[0]] + ts[1..] && ts[1..] == [ts[1]] + ts[2..];
    StartsId(p, ts[0], ts[1], id[0]);
    FeedOne(p, ts[0], PLUS);
    FeedOne(evaluating, ts[1], id[0]);
    FeedIdentifier(begun, ts[2..], id[1..]);
    FeedConcat(evaluating, [ts[1]], ts[2..], [id[0]], id[1..]);
    FeedConcat(p, [ts[0]], ts[1..], [PLUS], id);
  }

  /** The end character of an identifier: only the table in force right then matters. */
  lemma FeedPlusIdStop(p: Parser, ts: seq<seq<Urc>>, t: seq<Urc>, id: seq<byte>, stop: byte)
    requires p.state.NotParsing? && IsIdentifier(id) && EndsId(stop) && |ts| == |id| + 1
    ensures var (next, action) := Next(p.(state := ParsingIdentifier, id := id), t, stop);
            Yields(Feed(p, ts + [t], [PLUS] + id + [stop]), next, Fires(action))
  {
    hide Feed, Next;
    FeedPlusId(p, ts, id);
    FeedOne(p.(state := ParsingIdentifier, id := id), t, stop);
    FeedConcat(p, ts, [t], [PLUS] + id, [stop]);
  }

  /**
   * A URC nobody is registered for when its end character arrives: nothing fires, and the parser waits
   * for the next '+'.
   */
  lemma UnregisteredIsQuiet(p: Parser, ts: seq<seq<Urc>>, t: seq<Urc>, id: seq<byte>, stop: byte)
    requires p.state.NotParsing? && IsIdentifier(id) && IsStop(stop) && |ts| == |id| + 1
    requires Valid(t) && id !in Entries(t)
    ensures Yields(Feed(p, ts + [t], ['+' as int] + id + [stop]), p.(id := []), [])
  {
    hide Feed, Valid, Entries, First;
    LookupFinds(t, id);
    ValidIsDistinct(t);
    FeedPlusIdStop(p, ts, t, id, stop);
  }

  /** The end character of a registered identifier starts the data. */
  lemma FeedRegistered(p: Parser, ts: seq<seq<Urc>>, t: seq<Urc>, id: seq<byte>, stop: byte)
    requires p.state.NotParsing? && IsIdentifier(id) && EndsId(stop) && |ts| == |id| + 1
    requires Valid(t) && id in Entries(t)
    ensures Yields(Feed(p, ts + [t], [PLUS] + id + [stop]),
                   Parser(ParsingData, [], [], Lookup(t, id), Entries(t)[id].callback), [])
  {
    hide Feed, Valid, Entries, First;
    LookupFinds(t, id);
    ValidIsDistinct(t);
    FeedPlusIdStop(p, ts, t, id, stop);
  }

  /** Data and a line end, once an identifier matched. */
  lemma FeedDataLine(ts: seq<seq<Urc>>, index: nat, callback: Option<nat>, data: seq<byte>, eol: byte)
    requires NoEnds(data, true) && |data| < DATA_SIZE && EndsData(eol) && |ts| == |data| + 1
    ensures var fires := if callback.Some? then [Fire(callback.value, data)] else [];
            Yields(Feed(Parser(ParsingData, [], [], index, callback), ts, data + [eol]), Parser(NotParsing, [], [], index, None), fires)
  {
    hide Feed;
    var matched := Parser(ParsingData, [], [], index, callback);
    assert [] + data == data;
    assert ts == ts[..|data|] + [ts[|data|]];
    FeedData(matched, ts[..|data|], data);
    FeedOne(matched.(data := data), ts[|data|], eol);
    FeedConcat(matched, ts[..|data|], [ts[|data|]], data, [eol]);
  }

  /**
   * A URC somebody is registered for when its end character arrives: '+', identifier, end character,
   * data and line end fire the callback registered then exactly once, with exactly the data, and leave
   * the parser waiting for the next '+', whatever is registered or unregistered before and after.
   */
  lemma RegisteredFiresOnce(p: Parser, before: seq<seq<Urc>>, t: seq<Urc>, after: seq<seq<Urc>>,
                            id: seq<byte>, stop: byte, data: seq<byte>, eol: byte)
    requires p.state.NotParsing? && IsIdentifier(id) && IsStop(stop) && |before| == |id| + 1
    requires Valid(t) && id in Entries(t)
    requires NoEnds(data, true) && |data| < 384 && IsLineEnd(eol) && |after| == |data| + 1
    ensures var (last, fires) := Feed(p, before + [t] + after, ['+' as int] + id + [stop] + (data + [eol]));
            && last.state.NotParsing?
            && fires == match Entries(t)[id].callback { case Some(f) => [Fire(f, data)] case None => [] }
  {
    hide Feed, Valid, Entries, IsIdentifier, NoEnds, Lookup, Meets;
    FiresOnce(p, before, t, after, id, stop, data, eol);
  }

  lemma FiresOnce(p: Parser, before: seq<seq<Urc>>, t: seq<Urc>, after: seq<seq<Urc>>,
                  id: seq<byte>, stop: byte, data: seq<byte>, eol: byte)
    requires p.state.NotParsing? && IsIdentifier(id) && EndsId(stop) && |before| == |id| + 1
    requires Valid(t) && id in Entries(t)
    requires NoEnds(data, true) && |data| < DATA_SIZE && EndsData(eol) && |after| == |data| + 1
    ensures var (last, fires) := Feed(p, before + [t] + after, [PLUS] + id + [stop] + (data + [eol]));
            && last.state.NotParsing?
            && fires == match Entries(t)[id].callback { case Some(f) => [Fire(f, data)] case None => [] }
  {
    hide Feed, Valid, Entries, First, IsIdentifier, NoEnds;
    var callback := Entries(t)[id].callback;
    FeedRegistered(p, before, t, id, stop);
    FeedDataLine(after, Lookup(t, id), callback, data, eol);
    FeedConcat(p, before + [t], after, [PLUS] + id + [stop], data + [eol]);
  }
}
