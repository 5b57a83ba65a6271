/**
 * The modem receive path of src/sequans_controller.cpp as a state machine over positions in the
 * received stream: the interrupt queues, parses and erases, the main loop reads and clears, and both
 * sides may change the table of callbacks in between.
 */
module RxModel {
  import opened Bytes
  import opened UrcTable
  import opened UrcParser

  /**
   * What was received, and where each received byte is: still queued, read, cleared by the main loop, or
   * erased because it belonged to a URC. plus is the position of the '+' that last began a URC.
   */
  datatype Rx = Rx(received: seq<byte>, queue: seq<nat>, read: seq<nat>, cleared: seq<nat>, erased: seq<nat>,
                   plus: nat, parser: Parser, table: seq<Urc>, fires: seq<Fire>)

  datatype Event = Receive(b: byte) | Read | Clear | Change(call: Call)

  ghost predicate TableShape(t: seq<Urc>) {
    |t| == SLOTS && forall i :: 0 <= i < SLOTS ==> |t[i].identifier| == ID_SIZE
  }

  /** How many of the newest queued bytes the interrupt erases. */
  ghost function EraseCount(p: Parser, next: Parser, action: Action, t: seq<Urc>, queued: nat): (n: nat)
    requires |t| == SLOTS && p.index < SLOTS && next.index < SLOTS
    ensures n <= queued
  {
    match action
    case Quiet => 0
    case Matched => if t[next.index].clear && queued >= |p.id| + 2 then |p.id| + 2 else 0
    case Ended(_) => if t[p.index].clear && queued >= |p.data| then |p.data| else 0
  }

  /** The interrupt handler. */
  ghost function Received(rx: Rx, b: byte): Rx
    requires Bounded(rx.parser) && TableShape(rx.table)
  {
    var pos := |rx.received|;
    var pushed := rx.queue + [pos];
    var (next, action) := Next(rx.parser, rx.table, b);
    NextBounded(rx.parser, rx.table, b);
    var keep := |pushed| - EraseCount(rx.parser, next, action, rx.table, |pushed|);
    rx.(received := rx.received + [b],
        queue := pushed[..keep],
        erased := rx.erased + pushed[keep..],
        plus := if rx.parser.state.NotParsing? && b == PLUS then pos else rx.plus,
        parser := next,
        fires := rx.fires + Fires(action))
  }

  /** readByte. */
  ghost function ReadOne(rx: Rx): Rx {
    if rx.queue == [] then rx else rx.(queue := rx.queue[1..], read := rx.read + [rx.queue[0]])
  }

  /** clearReceiveBuffer. */
  ghost function Cleared(rx: Rx): Rx {
    rx.(queue := [], cleared := rx.cleared + rx.queue)
  }

  /** registerCallback or unregisterCallback. */
  ghost function TableChanged(t: seq<Urc>, call: Call): (r: seq<Urc>)
    requires TableShape(t)
    ensures TableShape(r)
  {
    match call
    case Add(id, callback, clear) => Register(t, id, callback, clear).0
    case Remove(id) => Unregister(t, id)
  }

  ghost function Step(rx: Rx, e: Event): Rx
    requires Bounded(rx.parser) && TableShape(rx.table)
  {
    match e
    case Receive(b) => Received(rx, b)
    case Read => ReadOne(rx)
    case Clear => Cleared(rx)
    case Change(call) => rx.(table := TableChanged(rx.table, call))
  }

  // ----- the invariant -----

  ghost function Range(lo: nat, hi: nat): (r: seq<nat>)
    requires lo <= hi
    ensures |r| == hi - lo && forall i :: 0 <= i < hi - lo ==> r[i] == lo + i
  {
    seq(hi - lo, i requires 0 <= i < hi - lo => lo + i)
  }

  ghost predicate Increasing(s: seq<nat>) {
    forall i, j :: 0 <= i < j < |s| ==> s[i] < s[j]
  }

  /** Every received byte is in exactly one of the four places, and each place keeps arrival order. */
  ghost predicate Conserved(rx: Rx) {
    && multiset(rx.queue) + multiset(rx.read) + multiset(rx.cleared) + multiset(rx.erased) == multiset(Range(0, |rx.received|))
    && Increasing(rx.read + rx.queue) && Increasing(rx.cleared + rx.queue)
    && forall i :: 0 <= i < |rx.queue| ==> rx.queue[i] < |rx.received|
  }

  /** The newest queued bytes are consecutive as far back as base, unless the queue is shorter. */
  ghost predicate Recent(queue: seq<nat>, base: nat, received: nat) {
    forall i :: 0 <= i < |queue| && |queue| - i <= received - base ==> queue[i] == received - (|queue| - i)
  }

  /** The parser's buffers hold the bytes since the '+', or since the end of the identifier. */
  ghost predicate Tracks(rx: Rx) {
    var p, n := rx.parser, |rx.received|;
    match p.state
    case NotParsing => true
    case Evaluating => n == rx.plus + 1 && Recent(rx.queue, rx.plus, n)
    case ParsingIdentifier => n == rx.plus + 1 + |p.id| && Recent(rx.queue, rx.plus, n)
    case ParsingData => n > rx.plus + |p.data| && Recent(rx.queue, n - |p.data|, n)
  }

  ghost predicate Inv(rx: Rx) {
    Bounded(rx.parser) && TableShape(rx.table) && Conserved(rx) && Tracks(rx)
  }

  ghost function Init(t: seq<Urc>): Rx { Rx([], [], [], [], [], 0, Start(), t, []) }

  lemma InitInv(t: seq<Urc>)
    requires TableShape(t)
    ensures Inv(Init(t))
  {
  }

  // ----- one step -----

  /** The queue right after the push. */
  lemma PushKeeps(rx: Rx, b: byte)
    requires Inv(rx)
    ensures var n, pushed := |rx.received|, rx.queue + [|rx.received|];
            && Increasing(rx.read + pushed) && Increasing(rx.cleared + pushed)
            && (forall base: nat :: base <= n && Recent(rx.queue, base, n) ==> Recent(pushed, base, n + 1))
            && multiset(pushed) + multiset(rx.read) + multiset(rx.cleared) + multiset(rx.erased) == multiset(Range(0, n + 1))
  {
    hide TableShape, Bounded, Tracks;
    var n := |rx.received|;
    var pushed := rx.queue + [n];
    InTheStream(rx);
    Appended(rx.read, rx.queue, n);
    Appended(rx.cleared, rx.queue, n);
    assert Range(0, n + 1) == Range(0, n) + [n];
  }

  lemma Appended(a: seq<nat>, b: seq<nat>, x: nat)
    requires Increasing(a + b) && forall i :: 0 <= i < |a + b| ==> (a + b)[i] < x
    ensures Increasing(a + (b + [x]))
  {
    Regroup(a, b, [x]);
  }

  /** Every position is one that was received. */
  lemma InTheStream(rx: Rx)
    requires Conserved(rx)
    ensures forall i :: 0 <= i < |rx.read + rx.queue| ==> (rx.read + rx.queue)[i] < |rx.received|
    ensures forall i :: 0 <= i < |rx.cleared + rx.queue| ==> (rx.cleared + rx.queue)[i] < |rx.received|
  {
    var all := multiset(Range(0, |rx.received|));
    forall x | x in all ensures x < |rx.received| {
      assert x in Range(0, |rx.received|);
    }
    forall i | 0 <= i < |rx.read + rx.queue| ensures (rx.read + rx.queue)[i] < |rx.received| {
      var x := (rx.read + rx.queue)[i];
      assert x in multiset(rx.read + rx.queue);
      assert x in all;
    }
    forall i | 0 <= i < |rx.cleared + rx.queue| ensures (rx.cleared + rx.queue)[i] < |rx.received| {
      var x := (rx.cleared + rx.queue)[i];
      assert x in multiset(rx.cleared + rx.queue);
      assert x in all;
    }
  }

  /** The newest k of a queue that is recent as far back as k. */
  lemma NewestAre(queue: seq<nat>, n: nat, k: nat)
    requires k <= |queue| && k <= n && Recent(queue, n - k, n)
    ensures queue[|queue| - k..] == Range(n - k, n)
  {
  }

  /** What the interrupt handler erases on a byte. */
  ghost function Gone(rx: Rx, b: byte): seq<nat>
    requires Inv(rx)
  {
    Received(rx, b).erased[|rx.erased|..]
  }

  /**
   * Erasing is exact: at the end of a registered identifier, all bytes of '+', identifier and end
   * character or none; at the end of the data, all bytes after the first data byte, up to and with the
   * line end, or none. So nothing that arrived before the current '+' is ever erased, whatever was read
   * or cleared in between.
   */
  lemma ErasesOnlyTheUrc(rx: Rx, b: byte)
    requires Inv(rx)
    ensures var p, n, gone, queued := rx.parser, |rx.received|, Gone(rx, b), |rx.queue| + 1;
            var (next, action) := Next(p, rx.table, b);
            && next.index < SLOTS
            && (action.Quiet? ==> gone == [])
            && (action.Matched? ==>
                  && n + 1 == rx.plus + |p.id| + 2
                  && gone == if rx.table[next.index].clear && queued >= |p.id| + 2 then Range(rx.plus, n + 1) else [])
            && (action.Ended? ==>
                  && rx.plus + |p.data| < n
                  && gone == if rx.table[p.index].clear && queued >= |p.data| then Range(n + 1 - |p.data|, n + 1) else [])
            && (forall i :: 0 <= i < |gone| ==> gone[i] >= rx.plus)
  {
    hide Conserved, Recent, First, Range, Increasing;
    NextBounded(rx.parser, rx.table, b);
    match Next(rx.parser, rx.table, b).1 {
      case Quiet => GoneAre(rx, b);
      case Matched => MatchGone(rx, b);
      case Ended(_) => EndGone(rx, b);
    }
  }

  lemma GoneAre(rx: Rx, b: byte)
    requires Inv(rx)
    ensures var p, pushed := rx.parser, rx.queue + [|rx.received|];
            var (next, action) := Next(p, rx.table, b);
            && Bounded(next)
            && Gone(rx, b) == pushed[|pushed| - EraseCount(p, next, action, rx.table, |pushed|)..]
  {
    hide Conserved, Tracks, Next, EraseCount;
    NextBounded(rx.parser, rx.table, b);
  }

  lemma MatchGone(rx: Rx, b: byte)
    requires Inv(rx) && Next(rx.parser, rx.table, b).1.Matched?
    ensures var p, n, next := rx.parser, |rx.received|, Next(rx.parser, rx.table, b).0;
            && next.index < SLOTS && n + 1 == rx.plus + |p.id| + 2
            && Gone(rx, b) == if rx.table[next.index].clear && |rx.queue| + 1 >= |p.id| + 2 then Range(rx.plus, n + 1) else []
  {
    hide Conserved, Recent, First, Range, Increasing, Gone;
    GoneAre(rx, b);
    PushKeeps(rx, b);
    var pushed := rx.queue + [|rx.received|];
    if Gone(rx, b) != [] {
      NewestAre(pushed, |rx.received| + 1, |rx.parser.id| + 2);
    }
  }

  lemma EndGone(rx: Rx, b: byte)
    requires Inv(rx) && Next(rx.parser, rx.table, b).1.Ended?
    ensures var p, n := rx.parser, |rx.received|;
            && rx.plus + |p.data| < n
            && Gone(rx, b) == if rx.table[p.index].clear && |rx.queue| + 1 >= |p.data| then Range(n + 1 - |p.data|, n + 1) else []
  {
    hide Conserved, Recent, First, Range, Increasing, Gone;
    GoneAre(rx, b);
    PushKeeps(rx, b);
    var n, k, pushed := |rx.received|, |rx.parser.data|, rx.queue + [|rx.received|];
    if Gone(rx, b) != [] {
      LaterBase(pushed, n - k, n + 1 - k, n + 1);
      NewestAre(pushed, n + 1, k);
    }
  }

  lemma LaterBase(queue: seq<nat>, base: nat, later: nat, n: nat)
    requires base <= later <= n && Recent(queue, base, n)
    ensures Recent(queue, later, n)
  {
  }

  /** Erasing moves bytes from the queue to the erased, and receiving keeps the invariant. */
  lemma ReceivedInv(rx: Rx, b: byte)
    requires Inv(rx)
    ensures Inv(Received(rx, b))
  {
    hide Conserved, Recent, Tracks, First, Next, Range, Increasing, Bounded;
    NextBounded(rx.parser, rx.table, b);
    ReceivedConserved(rx, b);
    ReceivedTracks(rx, b);
  }

  lemma ReceivedConserved(rx: Rx, b: byte)
    requires Inv(rx)
    ensures Conserved(Received(rx, b))
  {
    hide Recent, Tracks, Next, Range, EraseCount, TableShape, Bounded;
    PushKeeps(rx, b);
    var r := Received(rx, b);
    var pushed := rx.queue + [|rx.received|];
    var keep := |r.queue|;
    assert r.queue == pushed[..keep] && pushed == pushed[..keep] + pushed[keep..];
    Truncated(rx.read, pushed, keep);
    Truncated(rx.cleared, pushed, keep);
    assert multiset(pushed) == multiset(r.queue) + multiset(pushed[keep..]);
    assert multiset(r.erased) == multiset(rx.erased) + multiset(pushed[keep..]);
  }

  lemma Truncated(a: seq<nat>, b: seq<nat>, keep: nat)
    requires keep <= |b| && Increasing(a + b)
    ensures Increasing(a + b[..keep])
  {
    assert a + b[..keep] == (a + b)[..|a| + keep];
  }

  lemma ReceivedTracks(rx: Rx, b: byte)
    requires Inv(rx)
    ensures Tracks(Received(rx, b))
  {
    hide Conserved, Recent, First, Range, Increasing;
    PushKeeps(rx, b);
    var n, pushed := |rx.received|, rx.queue + [|rx.received|];
    var r := Received(rx, b);
    NothingRecent(r.queue, n + 1);
    if r.parser.state.Evaluating? {
      PlusIsRecent(rx.queue, n);
    }
    assert |r.queue| == |pushed| ==> r.queue == pushed;
  }

  lemma NothingRecent(queue: seq<nat>, n: nat)
    ensures Recent(queue, n, n)
  {
  }

  lemma PlusIsRecent(queue: seq<nat>, n: nat)
    ensures Recent(queue + [n], n, n + 1)
  {
  }

  lemma ReadInv(rx: Rx)
    requires Inv(rx)
    ensures Inv(ReadOne(rx))
  {
    hide Conserved, TableShape, Bounded;
    if rx.queue != [] {
      ReadConserved(rx);
    }
  }

  lemma ReadConserved(rx: Rx)
    requires Conserved(rx) && rx.queue != []
    ensures Conserved(ReadOne(rx))
  {
    hide Range, Increasing;
    var q, x := rx.queue[1..], rx.queue[0];
    assert rx.queue == [x] + q;
    Regroup(rx.read, [x], q);
    SubSequence(rx.cleared, [x], q);
    assert multiset(rx.queue) == multiset([x]) + multiset(q);
    assert multiset(rx.read + [x]) == multiset(rx.read) + multiset([x]);
  }

  lemma ClearInv(rx: Rx)
    requires Inv(rx)
    ensures Inv(Cleared(rx))
  {
    hide Conserved, TableShape, Bounded;
    ClearConserved(rx);
  }

  lemma ClearConserved(rx: Rx)
    requires Conserved(rx)
    ensures Conserved(Cleared(rx))
  {
    hide Range, Increasing;
    assert rx.queue + [] == rx.queue;
    assert rx.cleared + rx.queue + [] == rx.cleared + rx.queue;
    SubSequence(rx.read, rx.queue, []);
    assert multiset(rx.cleared + rx.queue) == multiset(rx.cleared) + multiset(rx.queue);
  }

  lemma SubSequence(a: seq<nat>, b: seq<nat>, c: seq<nat>)
    requires Increasing(a + (b + c))
    ensures Increasing(a + c)
  {
    var s, t := a + (b + c), a + c;
    assert forall i :: 0 <= i < |t| ==> t[i] == s[if i < |a| then i else i + |b|];
  }

  // ----- every run -----

  ghost function Run(rx: Rx, events: seq<Event>): Rx
    requires Inv(rx)
    decreases |events|
  {
    if events == [] then rx else
      StepInv(rx, events[0]);
      Run(Step(rx, events[0]), events[1..])
  }

  lemma StepInv(rx: Rx, e: Event)
    requires Inv(rx)
    ensures Inv(Step(rx, e))
  {
    hide Conserved, Tracks, Bounded, TableShape, Received, ReadOne, Cleared;
    match e {
      case Receive(b) => ReceivedInv(rx, b);
      case Read => ReadInv(rx);
      case Clear => ClearInv(rx);
      case Change(_) => TableChangeInv(rx, e.call);
    }
  }

  lemma TableChangeInv(rx: Rx, call: Call)
    requires Inv(rx)
    ensures Inv(rx.(table := TableChanged(rx.table, call)))
  {
    hide Recent, Bounded;
  }

  /**
   * Over every run: each received byte is exactly one of read, cleared, erased and still queued; what was
   * read is in arrival order and before everything still queued; the parser's buffers stay in bounds.
   */
  lemma {:induction false} RunConserves(rx: Rx, events: seq<Event>)
    requires Inv(rx)
    ensures Inv(Run(rx, events))
    decreases |events|
  {
    hide Inv, Step;
    InvBounds(rx);
    if events != [] {
      StepInv(rx, events[0]);
      RunConserves(Step(rx, events[0]), events[1..]);
    }
  }

  /** A byte that arrived before the '+' being parsed, if any, and has not been erased. */
  ghost predicate Safe(rx: Rx, x: nat) {
    x < |rx.received| && x !in rx.erased && (rx.parser.state.NotParsing? || x < rx.plus)
  }

  lemma StepKeepsSafe(rx: Rx, e: Event, x: nat)
    requires Inv(rx) && Safe(rx, x)
    ensures Safe(Step(rx, e), x)
  {
    hide Conserved, Recent, Next;
    if e.Receive? {
      ErasesOnlyTheUrc(rx, e.b);
      GoneIsErased(rx, e.b);
      if x in Received(rx, e.b).erased {
        var i :| 0 <= i < |Gone(rx, e.b)| && Gone(rx, e.b)[i] == x;
        NothingMatchedYet(rx, e.b);
      }
      PlusMoves(rx, e.b);
    }
  }

  lemma GoneIsErased(rx: Rx, b: byte)
    requires Inv(rx)
    ensures Received(rx, b).erased == rx.erased + Gone(rx, b)
  {
  }

  /** Outside a URC a byte completes nothing. */
  lemma NothingMatchedYet(rx: Rx, b: byte)
    requires Inv(rx) && rx.parser.state.NotParsing?
    ensures Gone(rx, b) == []
  {
  }

  lemma PlusMoves(rx: Rx, b: byte)
    requires Inv(rx)
    ensures var r := Received(rx, b);
            && |r.received| == |rx.received| + 1
            && r.plus == (if rx.parser.state.NotParsing? && b == PLUS then |rx.received| else rx.plus)
            && (rx.parser.state.NotParsing? && b != PLUS ==> r.parser.state.NotParsing?)
  {
  }

  /**
   * Over every run: a byte that arrived before the '+' being parsed, or while none was, is never erased
   * afterwards, however receiving, reading, clearing and changes of the table follow each other.
   */
  lemma {:induction false} EarlierBytesAreSafe(rx: Rx, events: seq<Event>, x: nat)
    requires Inv(rx) && Safe(rx, x)
    ensures Safe(Run(rx, events), x)
    decreases |events|
  {
    hide Inv, Step, Safe;
    InvBounds(rx);
    if events != [] {
      StepInv(rx, events[0]);
      StepKeepsSafe(rx, events[0], x);
      EarlierBytesAreSafe(Step(rx, events[0]), events[1..], x);
    }
  }

  /** The bytes that arrive during a run. */
  ghost function Arrivals(events: seq<Event>): seq<byte> {
    if events == [] then []
    else (if events[0].Receive? then [events[0].b] else []) + Arrivals(events[1..])
  }

  /** The tables in force when they arrive. */
  ghost function TablesAt(t: seq<Urc>, events: seq<Event>): (ts: seq<seq<Urc>>)
    requires TableShape(t)
    ensures |ts| == |Arrivals(events)| && forall i :: 0 <= i < |ts| ==> |ts[i]| == SLOTS
    decreases |events|
  {
    if events == [] then []
    else (if events[0].Receive? then [t] else []) + TablesAt(TableAfter(t, events[0]), events[1..])
  }

  ghost function TableAfter(t: seq<Urc>, e: Event): (r: seq<Urc>)
    requires TableShape(t)
    ensures TableShape(r)
  {
    if e.Change? then TableChanged(t, e.call) else t
  }

  /**
   * Reading, clearing and changing the table never disturb the parser: every run fires exactly what the
   * scanner finds in the bytes that arrive and the tables in force when they do.
   */
  lemma {:induction false} RunFires(rx: Rx, events: seq<Event>)
    requires Inv(rx)
    ensures TableShape(rx.table)
    ensures var end, ts, s := Run(rx, events), TablesAt(rx.table, events), Arrivals(events);
            Yields((end.parser, end.fires), Feed(rx.parser, ts, s).0, rx.fires + ScanFrom(rx.parser, ts, s))
    decreases |events|
  {
    hide Inv, Step, Next, TableShape, ScanFrom, TableAfter, Bounded;
    InvBounds(rx);
    var ts, s := TablesAt(rx.table, events), Arrivals(events);
    FeedIsScan(rx.parser, ts, s);
    if events == [] {
      assert rx.fires + [] == rx.fires;
    } else {
      StepInv(rx, events[0]);
      var next := Step(rx, events[0]);
      InvBounds(next);
      RunFires(next, events[1..]);
      StepParses(rx, events[0]);
      var us, rest := TablesAt(next.table, events[1..]), Arrivals(events[1..]);
      FeedIsScan(next.parser, us, rest);
      if events[0].Receive? {
        var action := Next(rx.parser, rx.table, events[0].b).1;
        assert ts[1..] == us && s[1..] == rest;
        Regroup(rx.fires, Fires(action), Feed(next.parser, us, rest).1);
      } else {
        assert ts == us && s == rest;
      }
    }
  }

  lemma InvBounds(rx: Rx)
    requires Inv(rx)
    ensures Bounded(rx.parser) && TableShape(rx.table)
  {
  }

  lemma StepParses(rx: Rx, e: Event)
    requires Inv(rx)
    ensures TableShape(rx.table) && Step(rx, e).table == TableAfter(rx.table, e)
    ensures e.Receive? ==>
              var (next, action) := Next(rx.parser, rx.table, e.b);
              Step(rx, e).parser == next && Step(rx, e).fires == rx.fires + Fires(action)
    ensures !e.Receive? ==> Step(rx, e).parser == rx.parser && Step(rx, e).fires == rx.fires
  {
  }

  // ----- a whole URC, with nobody reading in between -----

  ghost function Receives(s: seq<byte>): (events: seq<Event>)
    ensures |events| == |s|
  {
    seq(|s|, i requires 0 <= i < |s| => Receive(s[i]))
  }

  /** The same table for n bytes. */
  ghost function Same(t: seq<Urc>, n: nat): (ts: seq<seq<Urc>>)
    ensures |ts| == n
  {
    seq(n, _ => t)
  }

  lemma SameRest(t: seq<Urc>, n: nat)
    requires n > 0
    ensures Same(t, n)[0] == t && Same(t, n)[1..] == Same(t, n - 1)
  {
  }

  /** No byte completes anything. */
  ghost predicate AllQuiet(p: Parser, t: seq<Urc>, s: seq<byte>)
    decreases |s|
  {
    s == [] || (Next(p, t, s[0]).1.Quiet? && AllQuiet(Next(p, t, s[0]).0, t, s[1..]))
  }

  lemma {:induction false} RunConcat(rx: Rx, a: seq<byte>, b: seq<byte>)
    requires Inv(rx)
    ensures Inv(Run(rx, Receives(a))) && Run(rx, Receives(a + b)) == Run(Run(rx, Receives(a)), Receives(b))
    decreases |a|
  {
    hide Inv, Step;
    RunConserves(rx, Receives(a));
    if a == [] {
      assert a + b == b;
    } else {
      InvBounds(rx);
      StepInv(rx, Receive(a[0]));
      assert Receives(a)[1..] == Receives(a[1..]);
      assert Receives(a + b)[1..] == Receives(a[1..] + b);
      RunConcat(Step(rx, Receive(a[0])), a[1..], b);
    }
  }

  /** Quiet bytes only join the queue. */
  lemma {:induction false} QuietRun(rx: Rx, s: seq<byte>)
    requires Inv(rx) && AllQuiet(rx.parser, rx.table, s)
    ensures var n, end := |rx.received|, Run(rx, Receives(s));
            && |end.received| == n + |s| && end.table == rx.table
            && end.queue == rx.queue + Range(n, n + |s|)
            && end.parser == Feed(rx.parser, Same(rx.table, |s|), s).0
    decreases |s|
  {
    hide Inv, Next, Received;
    var n := |rx.received|;
    if s == [] {
      assert rx.queue + Range(n, n) == rx.queue;
    } else {
      InvBounds(rx);
      SameRest(rx.table, |s|);
      QuietStep(rx, s[0]);
      var next := Received(rx, s[0]);
      assert Receives(s)[0] == Receive(s[0]) && Receives(s)[1..] == Receives(s[1..]);
      StepInv(rx, Receive(s[0]));
      QuietRun(next, s[1..]);
      Regroup(rx.queue, [n], Range(n + 1, n + |s|));
      assert [n] + Range(n + 1, n + |s|) == Range(n, n + |s|);
    }
  }

  lemma QuietStep(rx: Rx, b: byte)
    requires Inv(rx) && Next(rx.parser, rx.table, b).1.Quiet?
    ensures Bounded(rx.parser) && TableShape(rx.table)
    ensures var n, r := |rx.received|, Received(rx, b);
            |r.received| == n + 1 && r.table == rx.table && r.queue == rx.queue + [n] && r.parser == Next(rx.parser, rx.table, b).0
  {
    hide Next, Conserved, Tracks;
    NextBounded(rx.parser, rx.table, b);
    var pushed := rx.queue + [|rx.received|];
    assert pushed[..|pushed|] == pushed;
  }

  lemma {:induction false} IdIsQuiet(p: Parser, t: seq<Urc>, s: seq<byte>)
    requires p.state.ParsingIdentifier? && NoEnds(s, false)
    requires |p.id| + |s| <= ID_SIZE
    ensures AllQuiet(p, t, s)
    decreases |s|
  {
    if s != [] {
      IdIsQuiet(p.(id := p.id + [s[0]]), t, s[1..]);
    }
  }

  lemma PlusIdIsQuiet(p: Parser, t: seq<Urc>, id: seq<byte>)
    requires p.state.NotParsing? && IsIdentifier(id)
    ensures AllQuiet(p, t, [PLUS] + id)
  {
    hide NoEnds;
    var s := [PLUS] + id;
    assert s[1..] == id;
    var evaluating := p.(state := Evaluating, id := []);
    IdIsQuiet(Next(evaluating, t, id[0]).0, t, id[1..]);
    assert AllQuiet(evaluating, t, id);
  }

  lemma {:induction false} DataIsQuiet(p: Parser, t: seq<Urc>, s: seq<byte>)
    requires p.state.ParsingData? && NoEnds(s, true)
    requires |p.data| + |s| <= DATA_SIZE
    ensures AllQuiet(p, t, s)
    decreases |s|
  {
    if s != [] {
      DataIsQuiet(p.(data := p.data + [s[0]]), t, s[1..]);
    }
  }

  /** The end character of a registered identifier takes '+', identifier and itself off the queue. */
  lemma MatchErases(rx: Rx, id: seq<byte>, stop: byte)
    requires Inv(rx) && Valid(rx.table) && rx.parser.state.ParsingIdentifier? && rx.parser.id == id
    requires EndsId(stop) && id in Entries(rx.table) && Entries(rx.table)[id].clear && |rx.queue| >= |id| + 1
    ensures var n, r := |rx.received|, Run(rx, Receives([stop]));
            && |r.received| == n + 1 && r.table == rx.table
            && r.queue == rx.queue[..|rx.queue| - |id| - 1]
            && r.parser == Parser(ParsingData, [], [], Lookup(rx.table, id), Entries(rx.table)[id].callback)
            && r.parser.index < SLOTS && rx.table[r.parser.index].clear
  {
    hide Conserved, Tracks, First, Valid, Entries;
    LookupFinds(rx.table, id);
    StepInv(rx, Receive(stop));
    assert Receives([stop])[1..] == [];
    var r := Received(rx, stop);
    assert Run(rx, Receives([stop])) == Run(r, []) == r;
    var pushed := rx.queue + [|rx.received|];
    assert r.queue == pushed[..|pushed| - |id| - 2] == rx.queue[..|rx.queue| - |id| - 1];
  }

  /** The line end takes as many bytes off the queue as the data has. */
  lemma EndErases(rx: Rx, eol: byte)
    requires Inv(rx) && rx.parser.state.ParsingData? && EndsData(eol)
    requires rx.parser.index < |rx.table| && rx.table[rx.parser.index].clear && |rx.queue| >= |rx.parser.data|
    ensures var r, pushed := Run(rx, Receives([eol])), rx.queue + [|rx.received|];
            && r.parser.state.NotParsing?
            && r.queue == pushed[..|pushed| - |rx.parser.data|]
  {
    hide Conserved, Tracks;
    StepInv(rx, Receive(eol));
    assert Receives([eol])[1..] == [];
    assert Run(rx, Receives([eol])) == Run(Received(rx, eol), []);
  }

  /**
   * What erasing leaves behind. Nobody reads while a URC registered with clearing arrives: of all its
   * bytes exactly the first one after the end character stays queued, because the handler counts the
   * data back from the line end.
   */
  lemma ClearedUrcLeavesOneByte(rx: Rx, id: seq<byte>, stop: byte, data: seq<byte>, eol: byte)
    requires Inv(rx) && Valid(rx.table) && rx.parser.state.NotParsing?
    requires IsIdentifier(id) && EndsId(stop) && id in Entries(rx.table) && Entries(rx.table)[id].clear
    requires NoEnds(data, true) && |data| < DATA_SIZE && EndsData(eol)
    ensures var end := Run(rx, Receives([PLUS] + id + [stop] + data + [eol]));
            && end.parser.state.NotParsing?
            && end.queue == rx.queue + [|rx.received| + |id| + 2]
  {
    hide Inv, Valid, Entries, Feed, Run, AllQuiet, IsIdentifier, NoEnds, Next, First, Receives;
    var n, q := |rx.received|, rx.queue;
    PlusIdIsQuiet(rx.parser, rx.table, id);
    FeedPlusId(rx.parser, Same(rx.table, |id| + 1), id);
    RunConcat(rx, [PLUS] + id, [stop]);
    QuietRun(rx, [PLUS] + id);
    var named := Run(rx, Receives([PLUS] + id));
    MatchErases(named, id, stop);
    var matched := Run(named, Receives([stop]));
    assert matched.queue == q;
    RunConcat(rx, [PLUS] + id + [stop], data);
    DataRun(matched, data);
    var filled := Run(matched, Receives(data));
    RunConcat(rx, [PLUS] + id + [stop] + data, [eol]);
    InvBounds(filled);
    EndErases(filled, eol);
    assert filled.queue == q + Range(n + |id| + 2, n + |id| + 2 + |data|);
    assert (filled.queue + [|filled.received|])[..|filled.queue| + 1 - |data|] == q + [n + |id| + 2];
  }

  lemma DataRun(rx: Rx, data: seq<byte>)
    requires Inv(rx) && rx.parser.state.ParsingData? && rx.parser.data == [] && NoEnds(data, true) && |data| < DATA_SIZE
    ensures var n, end := |rx.received|, Run(rx, Receives(data));
            && |end.received| == n + |data| && end.table == rx.table && end.queue == rx.queue + Range(n, n + |data|)
            && end.parser == rx.parser.(data := data)
  {
    hide Inv, Feed, Run, AllQuiet, NoEnds, Next, Receives;
    DataIsQuiet(rx.parser, rx.table, data);
    FeedData(rx.parser, Same(rx.table, |data|), data);
    assert [] + data == data;
    QuietRun(rx, data);
  }

  // ----- loading a byte after it was taken off the ring -----

  const RX_SIZE: nat := 512

  /** The bytes can arrive: the ring has room for each, and no data of exactly 384 bytes ends. */
  ghost predicate Arrivable(rx: Rx, s: seq<byte>)
    requires Inv(rx)
    decreases |s|
  {
    s != [] ==>
      && |rx.queue| < RX_SIZE
      && !(rx.parser.state.ParsingData? && EndsData(s[0]) && |rx.parser.data| == DATA_SIZE)
      && (ReceivedInv(rx, s[0]); Arrivable(Received(rx, s[0]), s[1..]))
  }

  /** None of the bytes fills the ring. */
  ghost predicate NeverFills(rx: Rx, s: seq<byte>)
    requires Inv(rx)
    decreases |s|
  {
    s != [] ==>
      && |rx.queue| + 1 < RX_SIZE
      && (ReceivedInv(rx, s[0]); NeverFills(Received(rx, s[0]), s[1..]))
  }

  /**
   * readByte loads the byte after its critical section. The position of what it then finds in the slot
   * of the byte it took, if these bytes arrived in between: one that fills the ring goes to that slot.
   */
  ghost function Loaded(rx: Rx, taken: nat, s: seq<byte>): nat
    requires Inv(rx)
    decreases |s|
  {
    if s == [] then taken
    else
      ReceivedInv(rx, s[0]);
      Loaded(Received(rx, s[0]), if |rx.queue| + 1 == RX_SIZE then |rx.received| else taken, s[1..])
  }

  /** readByte returns the byte it took off the ring if and only if no byte in between filled the ring. */
  lemma LoadsTheTakenIff(rx: Rx, s: seq<byte>)
    requires Inv(rx) && rx.queue != [] && Inv(ReadOne(rx)) && Arrivable(ReadOne(rx), s)
    ensures Loaded(ReadOne(rx), rx.queue[0], s) == rx.queue[0] <==> NeverFills(ReadOne(rx), s)
  {
    LoadedIff(ReadOne(rx), rx.queue[0], s);
  }

  lemma {:induction false} LoadedIff(rx: Rx, taken: nat, s: seq<byte>)
    requires Inv(rx) && Arrivable(rx, s) && taken < |rx.received|
    ensures Loaded(rx, taken, s) == taken || |rx.received| <= Loaded(rx, taken, s) < |rx.received| + |s|
    ensures Loaded(rx, taken, s) == taken <==> NeverFills(rx, s)
    decreases |s|
  {
    hide Inv, Received;
    if s != [] {
      InvBounds(rx);
      ReceivedInv(rx, s[0]);
      OneMore(rx, s[0]);
      LoadedIff(Received(rx, s[0]), if |rx.queue| + 1 == RX_SIZE then |rx.received| else taken, s[1..]);
    }
  }

  lemma OneMore(rx: Rx, b: byte)
    requires Inv(rx)
    ensures Received(rx, b).received == rx.received + [b]
  {
  }

  ghost function Fill(b: byte): seq<byte> { seq(RX_SIZE, _ => b) }

  /** Bytes that are no '+' fill an empty ring. */
  lemma FullRing(t: seq<Urc>, b: byte)
    requires TableShape(t) && b != PLUS
    ensures Inv(Init(t))
    ensures var full := Run(Init(t), Receives(Fill(b)));
            Inv(full) && full.received == Fill(b) && full.queue == Range(0, RX_SIZE) && full.parser == Start()
  {
    InitInv(t);
    RunConserves(Init(t), Receives(Fill(b)));
    PlainIsQuiet(Start(), t, Fill(b));
    QuietRun(Init(t), Fill(b));
    ReceivedIs(Init(t), Fill(b));
    assert Init(t).queue + Range(0, RX_SIZE) == Range(0, RX_SIZE);
    assert Init(t).received + Fill(b) == Fill(b);
  }

  lemma {:induction false} PlainIsQuiet(p: Parser, t: seq<Urc>, s: seq<byte>)
    requires p.state.NotParsing? && PLUS !in s
    ensures AllQuiet(p, t, s) && Feed(p, Same(t, |s|), s).0 == p
    decreases |s|
  {
    if s != [] {
      SameRest(t, |s|);
      PlainIsQuiet(p, t, s[1..]);
    }
  }

  lemma {:induction false} ReceivedIs(rx: Rx, s: seq<byte>)
    requires Inv(rx)
    ensures Run(rx, Receives(s)).received == rx.received + s
    decreases |s|
  {
    hide Inv, Received;
    InvBounds(rx);
    if s == [] {
      assert rx.received + s == rx.received;
    } else {
      InvBounds(rx);
      OneMore(rx, s[0]);
      StepInv(rx, Receive(s[0]));
      assert Receives(s)[0] == Receive(s[0]) && Receives(s)[1..] == Receives(s[1..]);
      ReceivedIs(Received(rx, s[0]), s[1..]);
      Regroup(rx.received, [s[0]], s[1..]);
      assert [s[0]] + s[1..] == s;
    }
  }

  /**
   * A run on which readByte loses a byte: the ring is full, the oldest byte is taken off, one more byte
   * arrives before it is loaded, and readByte returns that one.
   */
  lemma FullRingLosesByte(t: seq<Urc>, old': byte, new': byte)
    requires TableShape(t) && old' != PLUS && new' != PLUS && old' != new'
    ensures Inv(Init(t)) && Inv(Run(Init(t), Receives(Fill(old'))))
    ensures var full := Run(Init(t), Receives(Fill(old')));
            && full.queue != [] && Inv(ReadOne(full)) && Arrivable(ReadOne(full), [new'])
            && var after, at := Received(ReadOne(full), new'), Loaded(ReadOne(full), full.queue[0], [new']);
            && at < |after.received| && after.received[at] == new' != after.received[full.queue[0]]
  {
    hide Inv, Fill;
    FullRing(t, old');
    var full := Run(Init(t), Receives(Fill(old')));
    ReadInv(full);
    var popped := ReadOne(full);
    ReceivedInv(popped, new');
    OneMore(popped, new');
    assert [new'][1..] == [];
    FillIs(old');
  }

  lemma FillIs(b: byte)
    ensures |Fill(b)| == RX_SIZE && Fill(b)[0] == b
  {
  }
}
